# Attendance dashboard core, in Dafny

This project models the logic that sits between the filter panel of the
attendance ("atendimentos") dashboard and the numbers it draws. It also
models the column-naming rules of the script that loads the spreadsheet
into PostgreSQL. Everything is written as pure functions over immutable
data, and the properties the code promises are proved as contracts and
lemmas.

| module | file | what it models |
|---|---|---|
| `Base`, `Text`, `Sorting` | base.dfy, text.dfy, sorting.dfy | Python building blocks: `Option`, a raise-or-return `Outcome`, `all`/`any`, `sum`; `str.strip`, `str.lower`, `int()`, `str(int)` and string order; a stable `sorted(key=…)` |
| `Filters` | filters.dfy | `build_filter_conditions`: the clause datatype, its exact SQL text, the parameter map, and the meaning of the compiled clauses on one row; the ticket guard of `get_ticket_medio` |
| `Catalog` | catalog.dfy | the first-spelling de-duplication of service types in `get_segmentos`; `format_and_sort_items` and the extra sort of service types by name |
| `SelectionSync` | selection_sync.dfy | the two checkbox state machines that keep each "TODOS" (select all) box in step with its options |
| `Resolution` | resolution.dfy | `get_selected_filters` and its inline copy: checkbox states become value lists, and a list naming everything collapses to `[]` |
| `Metrics` | metrics.dfy | guarded ratios, the period-over-period percentage change, and the "mean of months" |
| `Pivot` | pivot.dfy | the professional × year grids, with row, column and grand totals |
| `Monthly` | monthly.dfy | `organize_monthly_data` |
| `Dates` | dates.dfy | `converter_para_iso`: `DD/MM/YYYY` or `YYYY-MM-DD` to ISO, with calendar checks |
| `Ids` | ids.dfy | `sanitize_id`; md5 is a parameter |
| `Columns` | columns.dfy | `sanitize_column`, the `valor` column selection and the PostgreSQL type ladder |
| `Pipeline` | pipeline.dfy | how a checked box becomes a list of values for the compiler, the two defects that hand-over has, and the corrected mappings |

Row semantics are stated over a `Row` record: a nullable timestamp plus
the four category columns, with NULL as `None`. The database's cast of a date
string to a timestamp is a parameter `cast`. Catalogs and query results
are input sequences.

## Model

| member | source | states |
|---|---|---|
| Filters.PlaceholderMatchesKey | database/queries.py:161-208 | every clause that binds a parameter mentions it in its text as `:key` |
| Filters.Render | database/queries.py:161-208 | the exact SQL text of each clause; what it promises is stated by `Filters.PlaceholderMatchesKey` and `Filters.NoPlaceholderWithoutKey` |
| Filters.NoPlaceholderWithoutKey | database/queries.py:167-202 | a clause that binds nothing (`col IS NULL`) has no placeholder at all |
| Filters.ParseInts | database/queries.py:161-166 | a successful conversion has one integer per string, and a failed one raises `ValueError` |
| Filters.ParseIntsSpec | database/queries.py:161-166 | `[int(x) for x in xs]` succeeds iff every string parses with `int()`, and then holds each parsed value in order |
| Text.ParseInt | database/queries.py:163 | a string `int()` rejects raises `ValueError`; `Text.ParseIntOfIntToString` proves `int(str(n)) == n` |
| Text.StripIsInfix | callbacks/atendimentos.py:72 | `strip()` returns an infix of its input, and everything outside that infix is whitespace |
| Text.Strip | callbacks/atendimentos.py:72 | the stripped text is never longer and neither starts nor ends with whitespace; `Text.StripIsInfix` adds that only surrounding whitespace is removed |
| Text.Lower | gera_postgreesql_bi.py:27 | lower-casing keeps the length and maps each character on its own |
| Filters.PresentSpec | database/queries.py:170-172 | dropping `None` keeps exactly the present values, and keeps the list unchanged when nothing is `None` |
| Filters.CategoryPart | database/queries.py:167-175 | a non-empty category list gives exactly one of `IS NULL`, `ANY … OR IS NULL` and `ANY`, and only `IS NULL` binds no parameter |
| Filters.BuildFilterConditions | database/queries.py:146-209 | the compiler raises exactly when a given year or month string is not an integer literal, and the error is `ValueError` |
| Filters.Compile | database/queries.py:146-209 | a failed compilation is always the `ValueError` of `int()`; `Filters.CompiledSemantics` states what the clauses mean on a row |
| Filters.WhereDependsOnlyOnShape | database/queries.py:157-209 | the `WHERE` text depends only on which inputs are given and on the NULL pattern of the category lists, never on the values themselves: nothing is interpolated |
| Filters.WhereStartsWithTrue | database/queries.py:157-209 | the `WHERE` text is `1=1` followed by ` AND ` and each clause |
| Filters.ClauseOrder | database/queries.py:161-208 | clauses come in the fixed order year, month, especialidade, forma_de_pagamento, profissional, tipo_atendimento, start date, end date |
| Filters.ClauseCount | database/queries.py:161-208 | there is one clause per given input; an absent or empty list or date adds none |
| Filters.ParamKeys | database/queries.py:158-208 | the parameter keys are exactly those of the given inputs, except that an all-`None` list binds no key |
| Filters.YearAndMonthParams | database/queries.py:161-166 | `anos` and `meses` are bound to the integer conversions of the given strings, one per string, in order |
| Filters.CategorySemantics | database/queries.py:167-175 | for a non-empty list, a NULL value passes iff the list holds `None`, and a value `v` passes iff the list holds `v` |
| Filters.CompiledSemantics | database/queries.py:146-209 | running the compiled query on a row fails exactly when a given date argument cannot be cast; otherwise it keeps exactly the rows that every given input admits |
| Filters.DateBoundsInclusive | database/queries.py:203-208 | both date bounds are inclusive; when the bound is read as midnight, the end bound keeps only the first instant of its day |
| Filters.NullDateKeptOnlyUnfiltered | database/queries.py:161-208 | a row whose `data_atendimento` is NULL fails every year, month and date clause: a successful query keeps it iff none of those inputs is given and the category lists admit it |
| Filters.TicketMedio | database/queries.py:276 | with no attendance the ticket is 0; otherwise ticket times count gives back the total |
| Catalog.UniqueSegments | database/queries.py:137-144 | the loop keeps one entry per normalized key, the first spelling seen; every input key is covered; `id == nome`; input order is kept |
| Catalog.KeptDistinct | database/queries.py:137-144 | no two kept service types share a normalized key |
| Catalog.KeptCovers | database/queries.py:137-144 | every row's normalized key is represented by a kept entry |
| Catalog.LabelSpec | callbacks/atendimentos.py:72 | a NULL or empty name is shown as "Em Branco"; any other name is shown as the infix left after removing its leading and trailing whitespace, and nothing else: not longer, not padded |
| Catalog.Label | callbacks/atendimentos.py:72 | the display name of a raw value; its contract is stated by `Catalog.LabelSpec` |
| Catalog.FormatAndSortItems | callbacks/atendimentos.py:69-78 | the formatted entries, permuted and sorted by key; `Catalog.FormatAndSortSpec` adds ids, stability and lengths |
| Catalog.FormatAndSortSpec | callbacks/atendimentos.py:69-78 | every entry and its id survive, with no de-duplication; the result is a permutation sorted by key, with "Em Branco" keyed as the empty string, and stable |
| Catalog.BlankFirst | callbacks/atendimentos.py:77-78 | nothing ahead of an "Em Branco" entry has a non-empty key, so blanks come first |
| Catalog.SortedSegmentsSpec | callbacks/atendimentos.py:86 | service types end up as a stable permutation sorted by display name |
| Catalog.SortedSegments | callbacks/atendimentos.py:86 | the service-type catalog is a permutation of the formatted entries sorted by display name |
| SelectionSync.SyncYearMonth | callbacks/atendimentos.py:230-301 | the year and month callbacks always write both outputs; they never leave the page alone |
| SelectionSync.YearMonthTodosIsAll | callbacks/atendimentos.py:230-301 | after any event of the year/month rule, TODOS equals the AND of the option values |
| SelectionSync.CategoryTodosIsAll | callbacks/atendimentos.py:312-332 | whenever the category rule updates, TODOS equals the AND of the option values |
| SelectionSync.SyncCategory | callbacks/atendimentos.py:312-332 | whenever the category rule updates a page with options, TODOS is the AND of the options; an option click with values passes them through with TODOS set to `all(values)` |
| SelectionSync.InitialAllSelected | callbacks/atendimentos.py:231-234 | on page load every year or month is checked, and so is TODOS |
| SelectionSync.OptionClickKeepsChoice | callbacks/atendimentos.py:320-326 | an option click keeps the option values; the category rule sets TODOS to `all(values)` |
| SelectionSync.TodosClickSetsAll | callbacks/atendimentos.py:328-332 | a TODOS click sets every option to the TODOS value; a `None` TODOS is `PreventUpdate` in the category rule and "uncheck all" in the year/month rule |
| SelectionSync.RulesAgreeOnOptions | callbacks/atendimentos.py:248-261 | on an option click with one value per option, the year/month rule and the category rule (lines 320-326) return the same outputs |
| SelectionSync.RulesAgreeOnTodos | callbacks/atendimentos.py:240-245 | on a TODOS click with a set value, the two rules return the same outputs |
| SelectionSync.StepConsistent | callbacks/atendimentos.py:312-332 | from a page where TODOS matches its options, any click keeps it matching, under either rule |
| SelectionSync.SessionConsistent | callbacks/atendimentos.py:230-301 | any sequence of clicks from a consistent page ends on a consistent page |
| SelectionSync.InitialConsistent | callbacks/atendimentos.py:231-234 | the initial page is consistent |
| SelectionSync.StepsAgree | callbacks/atendimentos.py:312-332 | on a page with one value per option, both rules react to every click identically |
| SelectionSync.SessionsAgree | callbacks/atendimentos.py:230-301 | both rules produce the same page after any sequence of clicks |
| Resolution.CheckedElems | callbacks/atendimentos.py:1794-1801 | a value is picked iff an option carrying it is shown and checked; `zip` ignores surplus flags and treats missing flags as unchecked |
| Resolution.CheckedInOrder | callbacks/atendimentos.py:1794-1801 | the picked values keep the options' order |
| Resolution.CopiesAgree | callbacks/atendimentos.py:589-623 | the inline copy, which tests the flag list with `is None`, resolves exactly like `get_selected_filters` |
| Resolution.Resolve | callbacks/atendimentos.py:1785-1812 | a checked TODOS resolves to `[]`, and a non-empty result never names every option |
| Resolution.ResolveInline | callbacks/atendimentos.py:589-623 | the same two facts, and an empty flag list resolves to `[]` although it is not `None` |
| Resolution.TodosResolvesEmpty | callbacks/atendimentos.py:1785-1805 | a checked TODOS box resolves to `[]`, no restriction |
| Resolution.AllCheckedResolvesEmpty | callbacks/atendimentos.py:1802-1812 | all options checked resolves to `[]` |
| Resolution.NoneCheckedResolvesEmpty | callbacks/atendimentos.py:1787-1812 | all options unchecked, or no flags at all, also resolves to `[]`, which the compiler reads as no restriction |
| Resolution.RestrictionIsProperSubset | callbacks/atendimentos.py:1783-1813 | a non-empty result comes from a flag list without TODOS, is an order-preserving proper subset of the options, and holds exactly the shown and checked ones |
| Resolution.ResolvedNumbersParse | callbacks/atendimentos.py:1784-1791 | every resolved year or month string parses back with `int()` to a number it was printed from |
| Resolution.GetSelectedFilters | callbacks/atendimentos.py:1783-1813 | a checked TODOS for years or months gives `[]`; every resolved year string parses back to one of the shown years and every month string to a month from 1 to 12 |
| Metrics.Ratio | callbacks/atendimentos.py:645 | a positive count gives the ratio whose product with the count is the total; a count that is not positive gives 0 |
| Metrics.TruthyRatio | callbacks/atendimentos.py:1940 | a non-zero count gives the ratio whose product with the count is the total; a zero count gives 0 |
| Metrics.GuardsAgreeOnCounts | callbacks/atendimentos.py:1940 | on counts, which are never negative, the `if t > 0` and `if t` guards agree |
| Metrics.GuardsDifferOnNegative | callbacks/atendimentos.py:1940 | on a negative count the two guards differ |
| Metrics.Ratios | callbacks/atendimentos.py:1215 | `zip` stops at the shorter list |
| Metrics.RatiosInverse | callbacks/atendimentos.py:1215 | each ratio times its count gives back its total, and a zero count gives 0 |
| Metrics.Delta | callbacks/atendimentos.py:650-653 | no change is reported iff the previous value is 0; otherwise the change times the previous value is 100 times the difference |
| Metrics.DeltaInverse | callbacks/atendimentos.py:653 | applying the percentage change to the previous value gives back the current one |
| Metrics.DeltaSign | callbacks/atendimentos.py:653 | from a positive previous value the change is positive iff the value grew, from a negative one iff it fell, and it is 0 iff the value is unchanged |
| Metrics.PeriodDeltas | callbacks/atendimentos.py:646-653 | one entry per period (a lone `None` when there are none), the first `None`; entry `i` is `None` iff period `i-1` is 0, and otherwise is the change from `i-1` to `i` |
| Metrics.CountPositiveSpec | callbacks/atendimentos.py:905 | some month is positive iff the number of positive months is not 0, so the division is guarded |
| Metrics.MeanTimesCount | callbacks/atendimentos.py:905 | the mean times the number of positive months gives back the sum of all months; with no positive month the mean is 0 |
| Metrics.MeanAtLeastAverage | callbacks/atendimentos.py:905 | with no negative month, the "mean" is at least the plain average, because zero months are not counted |
| Metrics.MeanIsAverageWhenAllPositive | callbacks/atendimentos.py:905 | when every month is positive, the "mean" is the plain average |
| Metrics.MeanOfMonths | callbacks/atendimentos.py:905 | the mean times the number of positive months is the sum of all months, and it is 0 when no month is positive |
| Pivot.BuildPivot | callbacks/atendimentos.py:1494-1508 | one row per professional with one cell per year and the row sum as "Total Geral", then a "Total Geral" row holding the column totals and the sum of the row totals |
| Pivot.RowSum | callbacks/atendimentos.py:1497-1502 | a professional's "Total Geral" is the sum of the facts of that professional in the shown years |
| Pivot.ColumnSum | callbacks/atendimentos.py:1505-1506 | a year's column total is the sum of the facts of that year for the shown professionals |
| Pivot.GrandTotal | callbacks/atendimentos.py:1622-1625 | the grand total by rows equals the grand total by columns, and the total of all facts when every fact is on the grid |
| Pivot.MissingCellIsZero | callbacks/atendimentos.py:1499 | a professional and year with no fact gets 0 |
| Monthly.Slot | callbacks/atendimentos.py:449-451 | a month lands on a slot of the twelve-slot list iff Python's list index reaches one, counting negative indices from the end |
| Monthly.OrganizeMonthlyData | callbacks/atendimentos.py:442-453 | one twelve-slot list per requested year; each slot holds the last row written to it, or 0; it raises iff some row has a NULL year or month, or a requested year with an out-of-range month, and the first such row decides the error: `TypeError` for a NULL field (the dateless group of the monthly query), `IndexError` otherwise |
| Monthly.MonthSlots | callbacks/atendimentos.py:449 | months 1 to 12 fill slots 0 to 11, months 0 down to -11 wrap to the end, and any other month has no slot |
| Monthly.OtherYearsIgnored | callbacks/atendimentos.py:450-451 | a row of another year never changes a year's slots |
| Monthly.LastRowWins | callbacks/atendimentos.py:451 | a later row for a slot overwrites an earlier one |
| Dates.DayToken | callbacks/atendimentos.py:459 | an accepted `%d` token is a day from 1 to 31 |
| Dates.MonthToken | callbacks/atendimentos.py:459 | an accepted `%m` token is a month from 1 to 12 |
| Dates.YearToken | callbacks/atendimentos.py:459 | an accepted `%Y` token is a year from 0 to 9999 |
| Dates.ConverterParaIso | callbacks/atendimentos.py:455-457 | a missing or empty input gives `None` |
| Dates.CutSplit | callbacks/atendimentos.py:459 | a successful cut at the first separator gives the text before it, which holds no separator, and the text after it |
| Dates.ThreeSplit | callbacks/atendimentos.py:459 | the three parts a date text is read as rebuild the text with the two separators put back |
| Dates.SomeMeansSpelledDate | callbacks/atendimentos.py:455-464 | a text is converted only if it is an accepted day, month and year token of a real calendar day joined as `DD/MM/YYYY` or `YYYY-MM-DD`, and the output is that day's ISO text; every other text gives `None` |
| Dates.DmyToIso | callbacks/atendimentos.py:459 | a valid date written `DD/MM/YYYY` converts to the ISO text of the same day |
| Dates.IsoToIso | callbacks/atendimentos.py:462 | a valid ISO date parses to the same day and converts to itself |
| Dates.DmyTokensToIso | callbacks/atendimentos.py:459 | every `DD/MM/YYYY` spelling `strptime` accepts for a valid date, including one-digit and space-padded days and months, parses to that date and converts to its ISO text |
| Dates.YmdTokensToIso | callbacks/atendimentos.py:462 | the same for every accepted `YYYY-MM-DD` spelling, after the `%d/%m/%Y` attempt fails |
| Dates.StrptimeDmy | callbacks/atendimentos.py:459 | `strptime` with `%d/%m/%Y` only ever returns a real calendar day |
| Dates.StrptimeYmd | callbacks/atendimentos.py:462 | `strptime` with `%Y-%m-%d` only ever returns a real calendar day |
| Dates.Idempotent | callbacks/atendimentos.py:455-464 | converting a converted date again changes nothing |
| Dates.OutputIsValidIso | callbacks/atendimentos.py:455-464 | every output is the ISO text of a real calendar day |
| Dates.ImpossibleDmyRejected | callbacks/atendimentos.py:459-464 | a `DD/MM/YYYY` text whose tokens are all accepted, in any padding, but name no real calendar day (a day the month lacks, year 0) gives `None` |
| Dates.ImpossibleYmdRejected | callbacks/atendimentos.py:459-464 | the same for a `YYYY-MM-DD` text, after the `%d/%m/%Y` attempt fails |
| Ids.Hyphenate | callbacks/atendimentos.py:53 | the result holds only ASCII letters, digits and single hyphens, with the same letters and digits as the input |
| Ids.SanitizeId | callbacks/atendimentos.py:47-66 | the id starts with an ASCII letter and ends with `-` and the first eight characters of the digest of the stripped input |
| Ids.SanitizedNameWellFormed | callbacks/atendimentos.py:53-62 | the name part is non-empty, starts with a letter, and holds only letters, digits and inner single hyphens |
| Ids.SanitizedNameKeepsAlnums | callbacks/atendimentos.py:53-62 | the name part keeps the input's letters and digits in order; it is "id" when there are none, and gets an `n` prefix when the first is a digit |
| Ids.SanitizedNameFixpoint | callbacks/atendimentos.py:53-62 | a well-formed name is left unchanged |
| Ids.SanitizedNameIdempotent | callbacks/atendimentos.py:53-62 | sanitizing the name part twice is the same as once |
| Ids.SameIdSameHash | callbacks/atendimentos.py:64-66 | equal ids have equal hash parts and equal name parts |
| Ids.SeparatorsInterchangeable | callbacks/atendimentos.py:53 | any run of non-alphanumerics becomes the same single hyphen, whatever its characters |
| Ids.NamePartsCollide | callbacks/atendimentos.py:53-56 | distinct names can share a name part ("a b" and "a/b"), which is why the hash is appended |
| Ids.IdCharsOnly | callbacks/atendimentos.py:47-66 | with a lower-case hex digest, the whole id holds only letters, digits and hyphens |
| Columns.SanitizeColumn | gera_postgreesql_bi.py:26-36 | a sanitized name has at most 63 characters and none of the replaced characters |
| Columns.SanitizeColumnIsTheLoop | gera_postgreesql_bi.py:34-35 | the one-pass translation equals the dictionary loop of `str.replace` calls |
| Columns.LoopIsOnePass | gera_postgreesql_bi.py:34-35 | when no replacement text holds a replaced character, the sequential replacements equal one left-to-right translation |
| Columns.ReplacementsValuesKeyFree | gera_postgreesql_bi.py:28-33 | no replacement text reintroduces a replaced character |
| Columns.ReplacementKeys | gera_postgreesql_bi.py:28-33 | the replaced characters are exactly ` / ( ) % $ @ ã ç á é í ó ú` |
| Columns.Truncate | gera_postgreesql_bi.py:36 | truncation keeps a prefix of at most 63 characters |
| Columns.NoListedCharLeft | gera_postgreesql_bi.py:27-36 | no replaced character is left in a sanitized name |
| Columns.ReplacementsIdempotent | gera_postgreesql_bi.py:27-36 | running the replacements again on a sanitized name changes nothing |
| Columns.LowerOfSanitized | gera_postgreesql_bi.py:27-36 | a sanitized name is already lower case |
| Columns.SanitizeFixpoint | gera_postgreesql_bi.py:26-36 | a sanitized name without surrounding whitespace is sanitized to itself |
| Columns.NotIdempotent | gera_postgreesql_bi.py:26-36 | sanitizing twice can differ from once: a tab before a removed parenthesis is exposed to `strip` only on the second run |
| Columns.DollarMakesValorColumn | gera_postgreesql_bi.py:30-41 | when the translated name fits in 63 characters, a `$` in the name makes it a `valor` column |
| Columns.ValorColumns | gera_postgreesql_bi.py:41 | exactly the columns whose lower-cased name contains `valor` are picked, in column order |
| Columns.ColumnDefs | gera_postgreesql_bi.py:62-76 | one definition per column, in column order, under the column's own name |
| Columns.LadderExact | gera_postgreesql_bi.py:63-75 | the type is `NUMERIC(15,2)` iff the column is a `valor` column or float, `INTEGER` iff integer and not `valor`, `TIMESTAMP` iff datetime and not `valor`, and `TEXT` otherwise |
| Columns.ColumnType | gera_postgreesql_bi.py:63-75 | the type of one column: `NUMERIC(15,2)` iff a `valor` column or float, `INTEGER`, `TIMESTAMP` or `TEXT` otherwise by dtype |
| Columns.TableColumns | gera_postgreesql_bi.py:38-76 | each spreadsheet header becomes its sanitized name, and a name containing `valor` is typed `NUMERIC(15,2)` |
| Columns.QuoteIdent | gera_postgreesql_bi.py:76 | a quoted identifier is wrapped in double quotes |
| Columns.QuoteRoundTrip | gera_postgreesql_bi.py:76 | undoubling the inner quotes of a quoted identifier gives back the name |
| Pipeline.LabelsOffered | callbacks/atendimentos.py:177-184 | the checkbox indices of a category are exactly the display names of its catalog entries |
| Pipeline.LabelIsStripped | callbacks/atendimentos.py:72 | a display name never has surrounding whitespace |
| Pipeline.SelectedAreLabels | callbacks/atendimentos.py:604-605 | every resolved category value is a display name of the catalog |
| Pipeline.SentMeaning | callbacks/atendimentos.py:604-605 | as written, a partial selection keeps a row iff its raw value is literally one of the checked display names, so NULL never passes |
| Pipeline.OnlyBlankChecked | callbacks/atendimentos.py:180 | in a catalog holding NULL and another name, checking only "Em Branco" selects NULL rows, yet the compiled list rejects them |
| Pipeline.PaddedRowsDropped | callbacks/atendimentos.py:72 | a checked name whose raw value has surrounding whitespace selects those rows, yet the compiled list rejects them |
| Pipeline.RawForElems | callbacks/atendimentos.py:604-605 | corrected: a raw value is sent iff it is in the catalog and its display name is checked |
| Pipeline.RawForMeaning | callbacks/atendimentos.py:604-605 | corrected, for especialidade, forma_de_pagamento and profissional, whose catalogs hold every distinct value: with raw values sent, a row passes iff nothing is selected or its display name is checked, NULL and padded values included |
| Pipeline.AgreeOnPlainValues | callbacks/atendimentos.py:604-605 | on values that are neither NULL, empty nor padded, the written and the corrected lists agree |
| Pipeline.SegmentSpellingDropped | database/queries.py:137-144 | as written, a service type spelled differently from the first spelling of its normalized key is rejected although the checked box is its key's, by the display name and by the kept raw value alike |
| Pipeline.RawForKeysElems | database/queries.py:137-144 | corrected for service types: a spelling is sent iff the catalog query returned it and the box of its key is checked |
| Pipeline.SegmentRawForMeaning | database/queries.py:137-144 | corrected for service types: with every spelling of a checked key sent, a row passes iff nothing is selected or its key's box is checked, whatever its spelling |
| Pipeline.OnlyDimQuery | database/queries.py:146-209 | a query restricting one category always compiles, never fails on a row, and keeps a row iff the list admits its value |
| Pipeline.NullRowNotCounted | callbacks/atendimentos.py:628-636 | with "Em Branco" checked in a partial selection, a NULL row is not counted as written and is counted once the names are mapped back |

## Left out

- Database access, Excel reading, `COPY` and DDL execution are not modelled. Catalogs and query results are input sequences.
- The database's `LOWER(TRIM(UNACCENT(…)))` key is a parameter `normalize`, and the cast of a date string to a timestamp is a parameter `cast`.
- `get_dados_agrupados` is not part of this model. Every chart reaches the compiler through it, so `Pipeline` assumes it forwards the category lists unchanged, as `get_total_atendimentos` does.
- Dash wiring, figures, tables, themes, text formatting, `round()` and the pandas `groupby` paths are not modelled. Counts and sums are exact `real`s.
- The category TODOS flags passed to `get_selected_filters` are never read by the code, so `Resolution.GetSelectedFilters` has no parameter for them.
- A checkbox value of `None` is modelled as unchecked.
- A category flag list that is `None` is not modelled: `zip` would raise `TypeError` on it, and pattern-matched checkbox inputs always arrive as lists.
- With every option unchecked, a dimension resolves to `[]`, which the compiler reads as no restriction: unchecking everything shows everything, not nothing.
- Text.Lower: `str.lower` is modelled for ASCII and Latin-1 capitals only; other scripts are left unchanged.
- Dates.ConverterParaIso: `strftime('%Y')` is modelled as four zero-padded digits. On glibc, years below 1000 print unpadded; such years are still accepted, but their output text differs, so `Dates.Idempotent` holds only for padded `%Y`.
- Dates.DayToken: `%d` and `%m` accept ASCII digits only; CPython's `\d` also matches other Unicode decimal digits.
- Dates.YearToken: `%Y` accepts four ASCII digits only; CPython's `\d\d\d\d` also matches other Unicode decimal digits, such as `٢٠٢٤`.
- Text.ParseInt: accepts ASCII digits only; Python's `int()` also accepts other Unicode decimal digits (`int("٢٠٢٤") == 2024`), which the model rejects with `ValueError`.
- Monthly.OrganizeMonthlyData: `ano` and `mes` are NULL or integers, which is what the monthly query's `::integer` columns (database/queries.py:294-295) return; `int()` of text, with its `ValueError`, and of a float, which truncates, are not modelled.
- Monthly.OrganizeMonthlyData: the result is a `map`, so the Python dict's key order (first occurrence in `years`) is not modelled.
- Ids.SanitizeId: md5 is a parameter `Md5Hex`. Its eight-character prefix is taken as given; the hash itself is not modelled.
- Columns.SanitizeColumn is written as one left-to-right translation. `Columns.SanitizeColumnIsTheLoop` proves it equal to the loop of `str.replace` calls.
- Columns.Truncate counts code points, as Python slicing does. PostgreSQL's 63-byte identifier limit is not modelled.
- pandas' handling of duplicate column names after sanitizing is not modelled. The dtype inference is an input `Dtype`.
- Pivot: the two grids differ only in the summed column, so one model covers both.
- Pivot.BuildPivot: the professionals and years are parameters; `sorted(df[...].unique())` (callbacks/atendimentos.py:1492-1493) is not modelled, and neither is a NULL professional, on which `sorted` would raise `TypeError` when it meets a string.
- `sanitize_id`, `get_selected_filters` and `organize_monthly_data` are defined in callbacks/atendimentos.py but called neither there nor from app.py. They are modelled for their own contracts.

## Findings

| source | as written | input that shows it | evidently intended | confidence | as-written member | corrected member |
|---|---|---|---|---|---|---|
| callbacks/atendimentos.py:604-605 | the checked checkbox indices, which are display names ("Em Branco" for NULL or empty values, stripped names otherwise; line 180), are sent to `build_filter_conditions` as column values | the especialidade catalog holds NULL and "Cardiologia"; only "Em Branco" is checked; the compiled clause is `especialidade = ANY(['Em Branco'])`, which rejects the NULL rows the user selected | map each checked name back to the raw values it stands for, so that NULL reaches the `IS NULL` branch (database/queries.py:168-172) and padded values match themselves | not executed | Pipeline.OnlyBlankChecked | Pipeline.RawForMeaning |
| database/queries.py:137-144 | the service-type catalog keeps only the first spelling of each normalized key (`LOWER(TRIM(UNACCENT(…)))`), and its display name is what a checked box sends | the query returns "Consulta" and then "consulta"; only "Consulta" is kept and shown; with its box checked in a partial selection, `tipo_atendimento = ANY(['Consulta'])` rejects the "consulta" rows | send every spelling the catalog query returned whose normalized key belongs to a checked box | not executed | Pipeline.SegmentSpellingDropped | Pipeline.SegmentRawForMeaning |
