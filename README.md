# Detalle Pasajeros Abandonos report, modelled in Dafny

`app.py` builds the "Detalle Pasajeros Abandonos" report. It reads three inputs: a master
sheet of compensated passengers, a reservations export and a folder of transaction exports.
It then does the following:

- normalises the reservation ids of all three with `clean_id`;
- parses the reservation start times, and the Spanish-formatted airport times of the
  transactions with `clean_and_parse_date_spanish`;
- left-joins the master with the reservations and then with the transactions on the
  cleaned id;
- picks a trip start for every joined row with `get_final_tm`;
- formats that start three ways ('Fecha', 'Hora', 'Tm_start_local_at');
- renames the columns through `column_mapping`;
- keeps the columns of `desired_order` that exist.

This project models that core once the files are read.

- `text.dfy` (module `Text`): the Python string primitives the code relies on, namely
  `str.strip()`, `str.lower()`, `str.replace()` and substring search, with their laws.
- `cells.dfy` (module `Cells`): table cells and timestamps. A cell is missing, text, an
  integer or a timestamp. The module also covers Python's `str()` of a cell and the
  zero-padded fields that `strftime` writes.
- `ids.dfy` (module `Ids`): `clean_id`.
- `dates.dfy` (module `Dates`): the text clean-up of `clean_and_parse_date_spanish`. The
  date parser `pd.to_datetime` is a parameter `toDatetime: string -> Option<Timestamp>`,
  where `None` is NaT.
- `join.dfy` (module `Join`): `pd.merge(..., how='left')` on the rows. It includes the
  fan-out, where a left row with k partners appears k times. Missing keys meet each other,
  as pandas matches NaN keys with NaN keys. The method `MergeLeft` is the scan the merge
  performs, proved equal to the functional `LeftJoin`.
- `resolve.dfy` (module `Resolve`): `get_final_tm`, whose result is a timestamp
  (`Concrete`), the text "Ingresar Manualmente" (`Manual`) or NaT (`Absent`). It is checked
  against an independent priority list of rules.
- `format.dfy` (module `Format`): `extract_date_str`, `extract_hour_str` and
  `format_full_datetime`, with a read-back proving the full text loses nothing.
- `columns.dfy` (module `Columns`): `column_mapping` and its adjustment for 'Fecha'; the
  rename loop as a method with its invariants; the `desired_order` filter as a method.
- `frame.dfy` (module `Frames`): the slice of a pandas DataFrame the report uses. It covers
  `df[c]`, `df[c] = values` (overwrite in place or append), renaming, and `df[labels]`. A
  label carried by several columns selects all of them.
- `report.dfy` (module `Report`): `main` from line 128 to line 272 as written, as a
  function `Generate` and as a step-by-step method `GenerateReport` proved to compute it.
  Beside it, `GenerateIntended` is the same run with the date handling corrected as in the
  finding below. The module also holds the lemmas about the whole pipeline, for both runs.

`pd.merge` checks the key columns before joining. `clean_id` returns text or NaN, so a key
column is float64 exactly when every key is missing, and text otherwise. Text keys against
float64 keys raise a ValueError when neither side is empty (`Report.KeyKindsClash`, the stop
`MismatchedKeys`). When the transaction files have no 'Id Reserva' column, line 140 makes
every transaction key missing. So the merge of line 169 stops whenever there are
transactions and the master has at least one id (`Report.TransactionsWithoutIdsStop`).
Only a master whose ids are all missing gets past it; its missing keys then meet every
transaction (`Join.MissingKeysMeet`, `Join.AllKeysMissing`).

## Model

| member | source | states |
|---|---|---|
| Ids.CleanId | app.py:52-59 | A missing value stays missing. Anything else becomes the text of `str(x).strip()` (`str` is `Cells.Str`) with exactly one trailing ".0" dropped when it has one. The result is never longer and never starts with a blank. |
| Ids.DropFloatMark | app.py:57-59 | Removes one trailing ".0" when present and otherwise returns the text unchanged. |
| Ids.CleanIdDropsFloatMark | app.py:57-58 | "123.0" cleans to "123". |
| Ids.CleanIdStripsBlanks | app.py:56 | " 123 " cleans to "123". |
| Ids.CleanIdDropsOneMark | app.py:57-58 | Only one mark goes: "1.0.0" cleans to "1.0". |
| Ids.CleanIdDropsLastMark | app.py:57-58 | "1.0" cleans to "1". |
| Ids.CleanIdNotIdempotent | app.py:52-59 | Cleaning a cleaned id can change it again ("1.0.0" → "1.0" → "1"). |
| Ids.IntegerIdKeysAgree | app.py:52-59 | An integer id, its text and its float rendering "<n>.0" all clean to the same key, which is the purpose the docstring gives. |
| Ids.IntTextIsCleanKey | app.py:56-57 | An integer's text is trimmed and carries no ".0" mark, while its float rendering does. |
| Cells.Digits | app.py:214 | The zero-padded field of `%d`, `%m`, `%Y`, `%H`, `%M` and `%S` has the requested width and is all digits. |
| Cells.DigitsRoundTrip | app.py:214 | Zero padding to a width that holds the number loses nothing: the digits read back as the number. |
| Cells.IntText | app.py:56 | `str()` of an integer is never empty. What cleaning does to it is stated by Ids.IntTextIsCleanKey. |
| Cells.TimestampText | app.py:56 | `str()` of a timestamp is 19 characters long. |
| Text.Trim | app.py:56 | `strip()` leaves no whitespace (as `Text.IsSpace` defines it) at either end and never lengthens. It is empty exactly for an all-blank text, fixes a text already trimmed, and adds no character. |
| Text.TrimStart | app.py:56 | Drops the longest all-blank prefix. |
| Text.TrimEnd | app.py:56 | Drops the longest all-blank suffix. |
| Text.TrimPadded | app.py:56 | One blank on each side of a trimmed text is all `strip()` removes. |
| Text.Lower | app.py:69 | `lower()` keeps the length, lowers each character with `Text.LowerChar` and leaves a lower-case text. |
| Text.ReplaceKeeps | app.py:71-77 | `replace` (`Text.Replace`) brings in no character that neither the text nor the replacement has. |
| Text.ReplaceRemoves | app.py:71-72 | Replacing a character by text without it removes every occurrence. |
| Text.ReplaceAbsent | app.py:74-77 | Without an occurrence of the pattern, `replace` gives the text back. |
| Text.ReplaceCharSplit | app.py:71-72 | Replacing a single character works piece by piece on a concatenation. |
| Text.CollapseLeavesNone | app.py:73 | Replacing "x y" by "xy" (distinct non-blank x, y) leaves no "x y" behind. |
| Text.CollapseAmKeepsNoPm | app.py:73 | Collapsing "a m" cannot create a "p m". |
| Dates.CollapsedShape | app.py:69-73 | After lines 69-73 (`Dates.Collapsed`) the text is lower case, has no ',' or '.', and has no "p m" or "a m" left. |
| Dates.LaterStepsAreNoOps | app.py:74-77 | Lines 74 and 77 never change anything: the whole chain of line 69 to line 77 equals the chain of lines 69-73. |
| Dates.CleanDateTextShape | app.py:69-77 | The text `Dates.CleanDateText` hands to the parser is lower case, has no ',' or '.', and has no "a m" or "p m". |
| Dates.CleanSpanishMeridiem | app.py:69-77 | "<date>, <time> a. m." cleans to "<date> <time> am", and likewise for "p. m.". |
| Dates.CleanDocstringExample | app.py:63 | The docstring's "16-12-2025, 12:00:00 a. m." cleans to "16-12-2025 12:00:00 am". |
| Dates.CleanedTextMayEndInBlank | app.py:69-72 | The trim comes before the deletions, so "<date> ." cleans to "<date> ", which is not trimmed. |
| Dates.CleanDateTextIdempotent | app.py:69-77 | Cleaning a cleaned text changes nothing when the first cleaning left no blank at its edges. |
| Dates.ParseSpanishDate | app.py:61-83 | A missing or blank value is NaT and never reaches the parser. Anything else is the parser's answer on the cleaned `str()` of the value, and a parse failure is NaT. |
| Dates.ParseSpanishDateOnCleanedText | app.py:69-81 | The cleaned text, when not blank and not edged with whitespace, parses exactly as the original did, whatever the parser. |
| Dates.SameCleanTextParsesAlike | app.py:69-81 | Two non-blank texts with the same cleaned text parse alike, whatever the parser. |
| Dates.SpanishAndCanonicalParseAlike | app.py:69-81 | A Spanish "a. m."/"p. m." text and its "<date> <time> am/pm" form parse to the same result, whatever the parser. |
| Dates.CanonicalMeridiemIsClean | app.py:69-77 | The "<date> <time> am/pm" form is its own cleaned text. |
| Dates.JourneyStart | app.py:147 | `to_datetime(..., errors='coerce')` on one cell: missing stays missing and a timestamp is kept. |
| Join.MatchesArePartners | app.py:163-166 | The partners of a key (`Join.Matches`) are exactly the right rows with that key: as many as the key occurs on the right, none foreign and none missed. |
| Join.LeftJoinSize | app.py:163-166 | In the join `Join.LeftJoin`, a left row with k partners appears max(1, k) times, so the join has the sum of those sizes. |
| Join.LeftJoinWidth | app.py:163-166 | Every output row has the left width plus the right width. |
| Join.OneRowJoin | app.py:163-166 | One left row yields its padded self without partners, and otherwise exactly "row + partner" for each partner. |
| Join.LeftJoinAppend | app.py:163-166 | The join keeps left order: joining two blocks is joining each and concatenating. |
| Join.MissingKeysMeet | app.py:140 | A left row with a missing key is paired with every right row with a missing key. |
| Join.AllKeysMissing | app.py:163-172 | A join on its own, when every right key is missing: a keyed left row gets one padded row and an unkeyed one gets a row per right row. In `main` the keyed case arises only when the right side has no rows, because text keys against all-missing keys stop the merge first (Report.TransactionsWithoutIdsStop). |
| Join.JoinTwiceSize | app.py:163-172 | Two left joins on the same key give each left row max(1, r) * max(1, t) rows. |
| Join.MergeLeft | app.py:163-166 | The scan over left rows and their partners computes exactly the left join. |
| Resolve.GetFinalTm | app.py:178-202 | The reservation timestamp wins. Without one: a missing mode gives NaT; a round trip or two dated legs give "Ingresar Manualmente"; otherwise the single dated leg is the answer, and no dated leg gives NaT. A concrete answer is always one of the three inputs. |
| Resolve.GetFinalTmIsFirstRule | app.py:178-202 | `get_final_tm` agrees on every row with the first applicable rule of an independent priority list. |
| Resolve.ModeRules | app.py:184-202 | After the reservation check, the mode decides first and then the dated legs. |
| Resolve.LegRules | app.py:191-202 | The last four branches are the leg rules in order. |
| Resolve.ReservationDecides | app.py:180-181 | With a reservation timestamp, the transaction fields do not matter. |
| Resolve.RoundTripIgnoresLegs | app.py:188-189 | A round trip (`Resolve.IsRound`) without a reservation is entered by hand whatever its legs say. |
| Format.ResolvedCell | app.py:204 | The 'Calculated_Start' cell is a timestamp, "Ingresar Manualmente" or NaT, each kind kept apart. |
| Format.ExtractDateStr | app.py:211-214 | The manual text is kept and NaT gives "". A timestamp gives a 10-character DD/MM/YYYY. |
| Format.ExtractHourStr | app.py:216-218 | A timestamp gives its hour as an integer from 0 to 23. The text and NaT give "". |
| Format.FormatFullDatetime | app.py:220-223 | It equals the date text for the manual text and for NaT. A timestamp gives its date text, a blank and HH:MM:SS, 19 characters in all. |
| Format.FullTextRoundTrip | app.py:223 | Reading the full text (`Format.DateText` and `Format.ClockText`) back gives the formatted timestamp. |
| Format.FullTextDistinguishes | app.py:223 | Two timestamps with the same full text are equal. |
| Format.KindsStayApart | app.py:211-223 | The manual text, "" and a formatted date never coincide. |
| Columns.AdjustMapping | app.py:233-246 | 'Fecha' is renamed to 'Datetime Compensación' exactly when the tested labels hold 'Fecha' and no 'Fecha_x', and is kept as 'Fecha' exactly otherwise. 'Fecha_x' always goes to 'Datetime Compensación'. The mapping keeps its keys. |
| Columns.RenameLabel | app.py:255 | After `rename(columns={from: to})`, `from` is gone unless it is `to`. `to` is present if `from` was. No label other than `to` appears that was not there before. Only the columns labelled `from` change. |
| Columns.RenameColumns | app.py:251-259 | The loop computes the labels and `final_cols` of the entry-by-entry renaming. |
| Columns.RareBranchChangesNothing | app.py:257-259 | The branch for the reverse collision renames an absent label, so it changes nothing. |
| Columns.RenameAllPointwise | app.py:253-259 | The loop, entry by entry as `Columns.RenameStep` and `Columns.RenameAll` run it, relabels each column independently: its new label is the old one followed through the entries. |
| Columns.FollowIsLookup | app.py:253-259 | For a mapping with distinct keys whose renames never chain, following the entries is a single dictionary lookup. |
| Columns.MappingsNeverChain | app.py:230-246 | Both the written mapping and the adjusted mapping have distinct keys and never chain. |
| Columns.MappingTargets | app.py:230-242 | Only 'Fecha_x' maps to 'Datetime Compensación', and 'Fecha', 'Hora' and 'Tm_start_local_at' map to themselves. |
| Columns.MappingTotals | app.py:235 | 'Total Compensación' is reported as 'Monto a compensar', a label that is no key. |
| Columns.ReportLabelSources | app.py:230-246 | Under each mapping, which column labels can become 'Hora', 'Tm_start_local_at', 'Fecha' and 'Datetime Compensación'. |
| Columns.FilterDesired | app.py:271 | The comprehension's loop computes the desired labels that exist, in order. |
| Columns.ValidColsSpec | app.py:263-271 | The kept labels (`Columns.ValidCols`) are exactly the desired ones present, each once, in the desired order. |
| Columns.DesiredOrderFacts | app.py:263-268 | `desired_order` has no repeat and holds the four date and time labels. |
| Frames.SetColumn | app.py:225-227 | `df[c] = v` keeps the columns when `c` exists and appends `c` otherwise. |
| Frames.SetColumnSpec | app.py:225-227 | After `df[c] = v` the column holds `v`, every other column is unchanged, and distinct labels stay distinct. |
| Frames.RelabelColumn | app.py:255 | A rename keeps the cells: the column under the new label is the one under the old. |
| Frames.RenameKeepsColumn | app.py:255 | Renaming one label leaves every other column as it was. |
| Frames.Relabel | app.py:255 | Relabelling keeps every row, so a rectangular frame stays rectangular. What it does to one column is stated by Frames.RelabelColumn. |
| Frames.Select | app.py:272 | `df[labels]` keeps every row. Its labels and cells are stated by Frames.SelectColumns, SelectDistinct, SelectRepeats and SelectSingleColumn. |
| Frames.SelectColumns | app.py:272 | `df[labels]` holds exactly the requested labels the frame has. |
| Frames.SelectDistinct | app.py:272 | With distinct labels, the selection's labels are the requested ones in the requested order. |
| Frames.SelectRepeats | app.py:272 | A requested label carried by two columns appears twice in the selection. |
| Frames.SelectSingleColumn | app.py:272 | A requested label carried by one column selects that column's cells. |
| Report.KeyMaster | app.py:129 | The master gains an 'id_key' column holding `clean_id` of 'id_reserva'. Its other labels and the cells of its other columns stay as they are. |
| Report.MasterIds | app.py:129 | One cleaned key per master row. |
| Report.StampCell | app.py:147-155 | A parsed timestamp becomes a cell that reads back as the same timestamp or NaT. |
| Report.ReservationSide | app.py:131-147 | One keyed row per reservation, in order. Its key is `clean_id` of 'id_reservation_id' and its one cell reads back as the parsed 'tm_start_local_at'. |
| Report.TransactionSide | app.py:134-156 | One keyed row per transaction, in order. The key is `clean_id` of 'Id Reserva', or missing for every row when there is no such column. The cells are the mode and the two parsed airport dates. |
| Report.Merge | app.py:163-172 | The merged frame has the master's labels followed by 'tm_start_dt', 'Modo', 'F.Desde Aerop_dt' and 'F.Hacia Aerop_dt'. |
| Report.Merged | app.py:163-172 | The frame after line 172 holds the four columns `get_final_tm` reads, after the keyed master's labels. |
| Report.MergedColumns | app.py:163-172 | The merged labels are the master's, 'id_key' and the added ones, distinct when nothing clashes. |
| Report.MergedDateLabels | app.py:163-172 | The merge keeps 'Fecha', 'Fecha_x' and 'Datetime Compensación' exactly as the master has them. |
| Report.MergedRowCount | app.py:163-172 | A master row with r reservation and t transaction partners appears max(1, r) * max(1, t) times. |
| Report.Clash | app.py:163-204 | Names the first merge-added label the master already holds, if any. |
| Report.Calculated | app.py:204 | One resolution per merged row. `Resolve.GetFinalTm` states what each one is. |
| Report.Formatted | app.py:204-227 | Keeps every merged row. Its columns are stated by Report.FormattedSpec. |
| Report.FormattedSpec | app.py:204-227 | 'Calculated_Start', 'Fecha', 'Hora' and 'Tm_start_local_at' hold the resolution and its formats. Every other column is unchanged and distinct labels stay distinct. |
| Report.FormattedStartAndDate | app.py:204-225 | 'Calculated_Start' holds each row's resolution and 'Fecha' its date text. |
| Report.FormattedHourAndFull | app.py:226-227 | 'Hora' and 'Tm_start_local_at' hold each row's hour and full text. |
| Report.RenamedIsLookup | app.py:244-259 | After the rename loop, each label is the adjusted mapping's entry for it, or itself. |
| Report.Project | app.py:251-272 | Renaming and selecting keep every row. The labels are stated by Report.ProjectColumns. |
| Report.ProjectColumns | app.py:251-272 | The report holds exactly the desired labels some renamed column carries, in the desired order when the renamed labels are distinct. |
| Report.ProjectColumn | app.py:251-272 | A report label that exactly one column renames to holds that column's cells. |
| Report.ProjectLacks | app.py:251-272 | A report label no column renames to is absent. |
| Report.ProjectKeepsRepeats | app.py:251-272 | Two columns renamed to one desired label both reach the report. |
| Report.ReportLabelsCanRepeat | app.py:235 | A master holding both 'Total Compensación' and 'Monto a compensar' reports 'Monto a compensar' twice. |
| Report.ProjectReportsComputed | app.py:226-272 | Whichever labels line 245 tests, the report's 'Hora' and 'Tm_start_local_at' hold each joined row's computed hour and full text. |
| Report.Finish | app.py:204-272 | The report as written keeps every merged row. Its columns are stated by Report.FinishReportsComputed and Report.FinishRelabelsDate. |
| Report.FinishReportsComputed | app.py:226-272 | As written and as intended, the report's 'Hora' and 'Tm_start_local_at' hold every joined row's computed hour and full text. |
| Report.FinishRelabelsDate | app.py:225-272 | As written, a frame without 'Fecha_x' always yields a report without 'Fecha'. With distinct labels and no 'Datetime Compensación' of its own, the report's 'Datetime Compensación' holds the computed date. |
| Report.FinishDropsDate | app.py:225-272 | As written, nothing reaches the report as 'Fecha' when the frame has no 'Fecha_x'. |
| Report.FinishMovesDate | app.py:225-272 | As written, the computed date reaches the report as 'Datetime Compensación'. |
| Report.SetMasterDateAside | app.py:230-250 | Moves a master 'Fecha' to 'Fecha_x' and keeps the four columns `get_final_tm` reads. Afterwards 'Fecha' remains only beside a 'Fecha_x'. |
| Report.FinishIntended | app.py:204-272 | The corrected report keeps every merged row. Its columns are stated by Report.FinishIntendedReportsDate, Report.FinishIntendedKeepsBothDates and Report.FinishReportsComputed. |
| Report.SetAsideDistinct | app.py:230-250 | Setting the date aside keeps the labels distinct. |
| Report.SetAsideKeepsStarts | app.py:204 | Setting the date aside changes no resolution. |
| Report.SetAsideMovesDate | app.py:230-250 | The master's date ends up under 'Fecha_x', and the labels stay distinct. |
| Report.FinishIntendedReportsDate | app.py:225-272 | As intended, every frame with distinct labels yields a report whose 'Fecha' is the computed date. |
| Report.FinishKeepsSuffixedDate | app.py:230-272 | With the master date under 'Fecha_x', testing line 245 before or after line 225 gives the same report. 'Datetime Compensación' gets that date and 'Fecha' the computed one. |
| Report.FinishIntendedKeepsBothDates | app.py:225-272 | With the correction, a master 'Fecha' reaches 'Datetime Compensación' and the computed date reaches 'Fecha'. |
| Report.SuffixedDateAgrees | app.py:230-272 | A frame that already holds 'Fecha_x' finishes the same way as written and as intended. |
| Report.Generate | app.py:128-272 | The run stops exactly on a master without 'id_reserva'. It stops at line 163 exactly when the master's and the reservations' key kinds clash. A stop on a clashing label names a merge-added label the master holds. It yields a report exactly when no stop applies. |
| Report.GenerateIntended | app.py:128-272 | Stops on exactly the inputs `Generate` stops on, with the same outcome, and otherwise yields a report. |
| Report.GenerateReport | app.py:128-272 | The step-by-step run, with its checks in the order of the source, yields exactly `Generate`'s outcome. |
| Report.GenerateIsFinish | app.py:128-272 | Without a stop, the report is the finished merged frame: as written for `Generate`, with the date kept apart for `GenerateIntended`. |
| Report.ReportRowCount | app.py:163-272 | Both runs report max(1, r) * max(1, t) rows per master row. |
| Report.ComputedColumnsReported | app.py:204-272 | For a master with distinct labels, both runs' 'Hora' and 'Tm_start_local_at' hold the hour and full text of every joined row's resolution. |
| Report.ComputedDateRelabelled | app.py:225-246 | As written, every master without 'Fecha_x' gets a report without 'Fecha'. Without a 'Datetime Compensación' of its own, that column holds the computed date, in place of any master 'Fecha'. |
| Report.IntendedKeepsBothDates | app.py:225-272 | As intended, every report's 'Fecha' is the computed date. A master 'Fecha' (without 'Fecha_x' or 'Datetime Compensación') reaches 'Datetime Compensación'. |
| Report.IntendedAgreesWithSuffixedDate | app.py:230-272 | A master that brings its date as 'Fecha_x' gets the same outcome from both runs. |
| Report.TransactionsWithoutIdsStop | app.py:137-172 | Transactions without 'Id Reserva' stop the run at line 169 whenever there is a transaction, the master has an id and line 163 passed. |

## Left out

- Reading files (`read_robust_file`, lines 21-50; the folder listing and the CSV reads, lines 99-119) and writing the report (line 275) are I/O. The model starts from the master as a frame and from the reservation and transaction rows. The console messages are not modelled.
- `pd.to_datetime` is not modelled. It is the parameter `toDatetime` for both line 81 and line 147. The format inference that line 147 makes across a whole column, fractional seconds and time zones are not modelled; timestamps are whole seconds without zone.
- `str()` of a float cell is not modelled: cells are text, integers, timestamps or missing. A float id such as 55.0 appears as its text "55.0".
- `lower()` is modelled for ASCII and Latin-1 letters only, the characters a Spanish-language export uses.
- A master column named like a merge-added column ('tm_start_dt', 'Modo', 'F.Desde Aerop_dt', 'F.Hacia Aerop_dt') always stops the run (`ClashingColumn`). pandas gives both columns the suffixes _x and _y. `get_final_tm` reads 'tm_start_dt' on every row, so a clash on it raises a KeyError. It reads 'Modo' only for a row without a reservation start, and the two airport dates only for a mode that is not 'Round'. When no row reads the clashing label, the source finishes the report while the model still stops; `Report.Runs` carries the same gap.
- A transaction file missing 'Modo', 'F.Desde Aerop' or 'F.Hacia Aerop', or a reservations file missing its id or start column, raises a KeyError in the source. The model assumes those columns are present. A transaction file without 'Id Reserva' is modelled, including the stop it causes at line 169.
- The key check of `pd.merge` when one side has no rows is not modelled: the key column's type then depends on how the file was read, and the model lets such a merge through.
- An empty master is not special-cased: `merged.apply` on no rows does not raise the KeyError of a clashing label, while the model still stops with `ClashingColumn`.
- A master with repeated column labels is not modelled; the pandas readers rename repeats.
- `final_cols` (lines 252-256) is computed by `Columns.RenameColumns`, but nothing uses it, as in the source.
- Join.KeyOf: a left row too short to hold the key column counts as having a missing key, only to keep the function total. Every row the report joins holds the key.
- Report.ProjectColumns: the report's labels are distinct only when the renamed labels are (see Report.ReportLabelsCanRepeat).
- Dates.CleanDateTextShape: does not state that the cleaned text is trimmed, because it need not be (see Dates.CleanedTextMayEndInBlank).
- Dates.JourneyStart: for a text or integer cell it states only that the parser decides.

## Findings

| source | as written | input that shows it | evidently intended | confidence | as-written member | corrected member |
|---|---|---|---|---|---|---|
| app.py:225 | Line 225 always creates 'Fecha', so the test of line 245 passes for every master without 'Fecha_x'. Lines 245-246 then send the computed date to 'Datetime Compensación', and the report has no 'Fecha' column. A master's own 'Fecha' is overwritten first and lost. | Any master without 'Fecha_x', with or without a 'Fecha' of its own. | 'Fecha' holds the computed date for every master, and 'Datetime Compensación' the master's date, as the comments at lines 231, 240 and 247-248 describe. The test of line 245 is made before line 225, on the master's own labels. | not executed | Report.ComputedDateRelabelled | Report.IntendedKeepsBothDates |
