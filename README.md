# Agenda core: backup lines, event query, reminders, home buckets

This project is a Dafny model of the deterministic logic inside the Android agenda app. Its records (`Evento`, and the Room row `EventoEntity`) hold seven text fields: date, time, category, description, status, location and contact. The row form adds an id and a reminder label.

The model covers four pieces:

- **Backup line format** (`Eventos`, on top of `KotlinText`).
  - `toTxtLine` joins the seven fields with `~~` and ends the line with a newline.
  - `fromTxtLine` trims the line, rejects a blank one, splits on `~~` and accepts exactly seven parts.
  - The Kotlin operations it relies on are modelled character by character over `seq<char>`: `trim` and `isBlank` with Kotlin's `Char.isWhitespace` set, `split` (leftmost, non-overlapping, trailing empty parts kept), `contains`, `String.compareTo`, and `BufferedReader` line splitting.
- **Repository** (`Repository`, `Database`).
  - Conversions between `Evento` and the table row.
  - The query `getFilteredEventos`:
    - a category filter, where `null` or "Todas" means no filter;
    - one of four date modes: inclusive range, year prefix, exact day, or `-mes-` substring;
    - a stable ascending sort on the date string.
  - Backup writes one line per stored row, in the order the table field holds them.
  - Restore keeps every line that parses. It replaces the whole table only when at least one line parsed.
  - The table is the field of a class. Both loops are methods proved against specification functions.
- **Reminders** (`Alarms`).
  - The label-to-minutes table, and the trigger instant (event time less the lead).
  - The guard chain of `scheduleAlarm`.
  - The alarm manager's pending alarms: a map keyed by event id, which `scheduleAlarm` overwrites and `cancelAlarm` removes from.
- **Home screen buckets** (`Home`).
  - `separarEventosPorFecha` is a loop that appends each event to today's list, this week's list, the later list, or none.
  - The week ends on the first Sunday on or after today.

Two behaviours of the code are worth knowing:

- **Unknown reminder label.** An unrecognised label is not rejected. It counts as zero minutes, so the alarm fires at the event time (`Alarms.UnknownLabelFiresAtEvent`).
- **Round trip.** Keeping `~~` out of the fields is not enough for a record to read back. A field that ends in a single `~` fuses with the following separator, because `split` takes the leftmost `~~`. When the description ends in one `~`, the status is non-empty, and no other field has a `~`, the line parses into a different record: the tilde moves to the front of the status (`Eventos.TrailingTildeShiftsField`). Other placements are not covered by a lemma: the tilde can land further on, or the line can stop having seven parts. The round trip is proved for records with no `~` at all, and with no whitespace that `trim` would remove from either end of the line.

The environment is given as parameters:

- the strict `SimpleDateFormat` parse of "yyyy-MM-dd HH:mm" (to epoch milliseconds), as `string -> Option<int>`;
- the lenient "yyyy-MM-dd" parse (to day numbers);
- the current time;
- today's formatted date, day number and weekday;
- the locale's first day of the week.

## Model

| member | source | states |
|---|---|---|
| Eventos.ToTxtLine | app/src/main/java/com/moviles/proyectofinal/Evento.kt:13-15 | the line is the seven fields in order fecha, hora, categoria, descripcion, status, ubicacion, contacto, joined by "~~", followed by "\n" |
| Eventos.FromTxtLine | app/src/main/java/com/moviles/proyectofinal/Evento.kt:21-42 | a blank line gives null; a result exists exactly when the trimmed line is not blank and splits into seven parts; the result's fields are those parts, in order |
| Eventos.FromTxtLineIgnoresOuterWhitespace | app/src/main/java/com/moviles/proyectofinal/Evento.kt:22-24 | parsing a line and parsing its trimmed form give the same result |
| Eventos.RoundTrip | app/src/main/java/com/moviles/proyectofinal/Evento.kt:13-41 | a record with no '~' in any field, whose line neither starts nor ends with whitespace, reads back from its own line as itself |
| Eventos.SeparatorInFieldRejected | app/src/main/java/com/moviles/proyectofinal/Evento.kt:26-29 | a record with "~~" inside any field produces a line that does not parse |
| Eventos.ParsedLineReprints | app/src/main/java/com/moviles/proyectofinal/Evento.kt:21-42 | a parsed record prints back as the trimmed line plus "\n", and none of its fields contains "~~" |
| Eventos.TrailingTildeShiftsField | app/src/main/java/com/moviles/proyectofinal/Evento.kt:14 | when the status is non-empty and no other field has a '~', a description ending in one '~' reads back without it, and the tilde moves to the front of the status |
| KotlinText.IsWhitespaceNoBreakSpaces | app/src/main/java/com/moviles/proyectofinal/Evento.kt:23-24 | spot checks of Kotlin's whitespace set: the no-break spaces U+00A0, U+2007 and U+202F are in it, the zero-width spaces U+200B and U+FEFF and '~' are not |
| KotlinText.IsBlankConcat | app/src/main/java/com/moviles/proyectofinal/Evento.kt:24 | text is blank exactly when each of two pieces it is made of is blank |
| KotlinText.Trim | app/src/main/java/com/moviles/proyectofinal/Evento.kt:23-24 | the trimmed text is empty exactly when the input is blank; otherwise it starts and ends with non-whitespace |
| KotlinText.TrimIsOuterCut | app/src/main/java/com/moviles/proyectofinal/Evento.kt:23 | the trimmed text is a slice of the input, and everything cut off before and after it is whitespace |
| KotlinText.TrimStartDropsWhitespace | app/src/main/java/com/moviles/proyectofinal/Evento.kt:23 | trimming the start keeps a suffix, and everything it drops is whitespace |
| KotlinText.TrimIdempotent | app/src/main/java/com/moviles/proyectofinal/Evento.kt:23 | trimming twice is trimming once |
| KotlinText.Split | app/src/main/java/com/moviles/proyectofinal/Evento.kt:26 | split always yields at least one part |
| KotlinText.SplitLeftmost | app/src/main/java/com/moviles/proyectofinal/Evento.kt:26 | the split is leftmost: no part but the last ends in '~', so in a run of tildes the separator is the first two |
| KotlinText.SplitCharacterised | app/src/main/java/com/moviles/proyectofinal/Evento.kt:26 | a list of parts is the split of a text exactly when the parts join back to the text, none contains "~~", and none but the last ends in '~'; so split has one possible result |
| KotlinText.SplitUnique | app/src/main/java/com/moviles/proyectofinal/Evento.kt:26 | parts that lack "~~" and, except the last, do not end in '~' split back into themselves after joining |
| KotlinText.SplitLength | app/src/main/java/com/moviles/proyectofinal/Evento.kt:26-29 | split yields one more part than there are separator occurrences |
| KotlinText.JoinSplit | app/src/main/java/com/moviles/proyectofinal/Evento.kt:26 | joining the parts of a split with "~~" restores the text |
| KotlinText.SplitJoin | app/src/main/java/com/moviles/proyectofinal/Evento.kt:14-26 | tilde-free parts joined by "~~" split back into the same parts |
| KotlinText.SplitPartsLackSep | app/src/main/java/com/moviles/proyectofinal/Evento.kt:26 | no part of a split contains "~~" |
| KotlinText.SepCountTrim | app/src/main/java/com/moviles/proyectofinal/Evento.kt:23-26 | trimming never removes a separator occurrence |
| KotlinText.ContainsAt | app/src/main/java/com/moviles/proyectofinal/EventoRepository.kt:185 | `contains` holds exactly when the pattern occurs at some position |
| KotlinText.LexLeCompareTo | app/src/main/java/com/moviles/proyectofinal/EventoRepository.kt:166 | a date is at most another exactly when it is a prefix of it, or has the smaller character at the first index where they differ |
| KotlinText.LexLeTotal | app/src/main/java/com/moviles/proyectofinal/EventoRepository.kt:166 | string comparison is total |
| KotlinText.LexLeTransitive | app/src/main/java/com/moviles/proyectofinal/EventoRepository.kt:166 | string comparison is transitive |
| KotlinText.LexLeAntisymmetric | app/src/main/java/com/moviles/proyectofinal/EventoRepository.kt:166 | strings each at most the other are equal |
| KotlinText.ReadLinesNoBreaks | app/src/main/java/com/moviles/proyectofinal/EventoRepository.kt:309-310 | no line read contains a "\n" or "\r" |
| KotlinText.LineEndStops | app/src/main/java/com/moviles/proyectofinal/EventoRepository.kt:309-310 | a read line ends at the first "\n" or "\r" and contains no break itself |
| KotlinText.ReadLinesLine | app/src/main/java/com/moviles/proyectofinal/EventoRepository.kt:309-310 | text made of a break-free line, "\n" and a rest is read as that line followed by the rest's lines |
| Repository.ToEntity | app/src/main/java/com/moviles/proyectofinal/EventoRepository.kt:34-45 | the row has id 0 and the given reminder label ("" by default), and converts back to the same record |
| Repository.EntityRoundTrip | app/src/main/java/com/moviles/proyectofinal/EventoRepository.kt:34-57 | converting a row to a record and back loses only its id |
| Repository.LoadEventos | app/src/main/java/com/moviles/proyectofinal/EventoRepository.kt:75-77 | one record per row, in the order the rows are given |
| Repository.FiltrarCategoriaKeeps | app/src/main/java/com/moviles/proyectofinal/EventoRepository.kt:158-160 | the category step keeps exactly the events of the category; with null or "Todas" it keeps every event |
| Repository.FiltrarFechaKeeps | app/src/main/java/com/moviles/proyectofinal/EventoRepository.kt:162-189 | the date step keeps exactly the events meeting the date condition of `Matches` for the chosen mode; a missing argument or an unknown mode keeps every event |
| Repository.MatchesBothSteps | app/src/main/java/com/moviles/proyectofinal/EventoRepository.kt:158-189 | an event matches the query exactly when it survives both steps on its own |
| Repository.FiltersAreOneFilter | app/src/main/java/com/moviles/proyectofinal/EventoRepository.kt:158-188 | the category step followed by the date step keeps exactly the events `Matches` selects, in input order; each null argument, and any unknown mode, disables its step |
| Repository.SortByFecha | app/src/main/java/com/moviles/proyectofinal/EventoRepository.kt:191 | the output is sorted by date and is a permutation of the input; on every date it keeps the input order (stability) |
| Repository.InsertSorted | app/src/main/java/com/moviles/proyectofinal/EventoRepository.kt:191 | inserting into a sorted list keeps it sorted and adds exactly that element |
| Repository.GetFilteredEventos | app/src/main/java/com/moviles/proyectofinal/EventoRepository.kt:148-192 | the result is sorted by date; every event occurs as often as in the input if it matches the query and not at all otherwise; equal dates keep the input order |
| Database.ListedBeforeOrders | app/src/main/java/com/moviles/proyectofinal/database/EventoDao.kt:51 | the `fecha DESC, hora DESC` listing order relates every two rows one way or the other, and chains |
| Repository.SameDateLatestTimeFirst | app/src/main/java/com/moviles/proyectofinal/database/EventoDao.kt:51 | with the table in `fecha DESC, hora DESC` order, the results on one date come latest time first |
| Repository.MonthPatternIsMonthField | app/src/main/java/com/moviles/proyectofinal/EventoRepository.kt:182-187 | for a well-formed YYYY-MM-DD date, containing "-mes-" means the month field equals mes, in any year |
| Repository.ParseBackupRows | app/src/main/java/com/moviles/proyectofinal/EventoRepository.kt:310-314 | the rows to insert are, in line order, `toEntity` of exactly the lines `fromTxtLine` accepts, each with id 0 and reminder "" |
| Repository.ParseBackupEmpty | app/src/main/java/com/moviles/proyectofinal/EventoRepository.kt:310-318 | nothing is collected exactly when no line parses |
| Repository.BackupText | app/src/main/java/com/moviles/proyectofinal/EventoRepository.kt:221-225 | the backup text is empty exactly when there are no rows, and otherwise ends with a line terminator |
| Repository.BackupTextLines | app/src/main/java/com/moviles/proyectofinal/EventoRepository.kt:221-225 | the backup text of storable rows reads back as one line per row, its fields joined by "~~", in row order |
| Repository.BackupThenRestore | app/src/main/java/com/moviles/proyectofinal/EventoRepository.kt:221-225 | restoring (the reader at lines 309-318) the backup text of a non-empty table of storable records gives back the table, row by row, with id 0 and reminder "" |
| Repository.EventoRepository.BackupData | app/src/main/java/com/moviles/proyectofinal/EventoRepository.kt:202-227 | no content exactly when the table is empty; otherwise the content is one `toTxtLine` per row, in table order (the same loop as createBackupFile, lines 264-287) |
| Repository.EventoRepository.RestoreFromBackupFile | app/src/main/java/com/moviles/proyectofinal/EventoRepository.kt:304-330 | returns true exactly when some line parses; in that case the table becomes the parsed rows, in order; otherwise it is unchanged |
| Alarms.MinutesBefore | app/src/main/java/com/moviles/proyectofinal/notifications/AlarmScheduler.kt:142-153 | the six labels map to 0, 5, 15, 30, 60 and 1440 minutes; any other label maps to 0 |
| Alarms.CalculateTriggerTime | app/src/main/java/com/moviles/proyectofinal/notifications/AlarmScheduler.kt:126-167 | a trigger exists exactly when "fecha hora" parses; the event instant minus the trigger is the lead in minutes times 60000 |
| Alarms.TriggerLeadIsListed | app/src/main/java/com/moviles/proyectofinal/notifications/AlarmScheduler.kt:142-156 | the trigger lies 0, 5, 15, 30, 60 or 1440 minutes before the event, never after it |
| Alarms.UnknownLabelFiresAtEvent | app/src/main/java/com/moviles/proyectofinal/notifications/AlarmScheduler.kt:149-152 | an unknown label puts the trigger at the event instant |
| Alarms.ScheduleDecision | app/src/main/java/com/moviles/proyectofinal/notifications/AlarmScheduler.kt:36-56 | "Sin recordatorio" schedules nothing; a scheduled trigger is the computed one; "too soon" means less than a minute ahead |
| Alarms.ScheduledExactly | app/src/main/java/com/moviles/proyectofinal/notifications/AlarmScheduler.kt:36-56 | an alarm is scheduled if and only if a reminder is wanted, the date parses and the trigger is at least 60000 ms after now; the trigger then lies between that point and the event |
| Alarms.AlarmScheduler.ScheduleAlarm | app/src/main/java/com/moviles/proyectofinal/notifications/AlarmScheduler.kt:28-106 | when the decision is to schedule, the event id now maps to the alarm, replacing any earlier one; otherwise the registry is unchanged |
| Alarms.AlarmScheduler.CancelAlarm | app/src/main/java/com/moviles/proyectofinal/notifications/AlarmScheduler.kt:112-121 | the alarm of that event id is gone and every other id keeps its alarm |
| Home.FinSemana | app/src/main/java/com/moviles/proyectofinal/HomeFragment.kt:102-112 | the week end is between today and six days later |
| Home.FinSemanaIsFirstSunday | app/src/main/java/com/moviles/proyectofinal/HomeFragment.kt:104-112 | the week end is a Sunday, no earlier day from today on is, and it is today exactly when today is Sunday |
| Home.CalendarWeekEnd | app/src/main/java/com/moviles/proyectofinal/HomeFragment.kt:103-112 | setting the weekday to Sunday within the locale's week, then adding a week when that is before today, gives the first Sunday on or after today, whatever day the week starts on |
| Home.SepararEventosPorFecha | app/src/main/java/com/moviles/proyectofinal/HomeFragment.kt:94-136 | each of the three lists is exactly the input events classified into it, in input order |
| Home.Clasificar | app/src/main/java/com/moviles/proyectofinal/HomeFragment.kt:120-128 | an event goes somewhere only when its date parses; to today exactly when its text is today's; to this week only when strictly after today and not after the week end; to later only when after the week end |
| Home.DroppedExactly | app/src/main/java/com/moviles/proyectofinal/HomeFragment.kt:118-133 | an event lands in no list exactly when its date does not parse, or its text differs from today's and its date is not after today |
| Home.TodayByText | app/src/main/java/com/moviles/proyectofinal/HomeFragment.kt:120-123 | an event goes to today's list exactly when its date parses and its text equals today's text |
| Home.BucketsPartition | app/src/main/java/com/moviles/proyectofinal/HomeFragment.kt:114-133 | the three lists plus the dropped events are the input, counted with multiplicity, and no event is in two lists |
| Home.BucketsKeepOrder | app/src/main/java/com/moviles/proyectofinal/HomeFragment.kt:118-128 | each list embeds into the input at increasing positions |
| Home.SundayHasEmptyWeek | app/src/main/java/com/moviles/proyectofinal/HomeFragment.kt:107-125 | on a Sunday this week's list is empty |

## Left out

- Room, SQL execution and the database singleton. The table is a sequence. Its listing order (`fecha DESC, hora DESC`) is a hypothesis of `SameDateLatestTimeFirst`, not something an operation maintains.
- Repository.EventoRepository.BackupData: writes the rows in the order the `table` field holds them. After a restore that field keeps the file's line order, while the app lists the rows again by date and then time, both descending, before writing a backup. So a backup taken right after a restore may order its lines differently here than in the app.
- Store-assigned ids. Restored rows carry id 0, the value that makes Room assign a fresh id. Which ids it assigns is not modelled.
- The exception paths:
  - a backup write that fails (null);
  - a restore whose insert fails after the delete, leaving the table empty and returning false;
  - an `AlarmManager` call rejected with a `SecurityException`;
  - exceptions inside the home-screen loop.
- `RestoreFromBackupFile` receives the file's text, or `None` when no stream could be opened. Opening and decoding the file are not part of this model.
- Backup file names, directories, timestamps, the returned path and `File` object, Google Drive sharing, and the coroutine dispatchers are not modelled.
- `SimpleDateFormat` and `Calendar` internals (time zone, daylight saving, leniency, real calendar arithmetic) are parameters: parse functions, day numbers, today's weekday, and the locale's first day of the week.
  - `HomeFragment`'s fallback to `Date()` when today's own string fails to parse is not modelled; today's day number is an input.
- `Alarms.CalculateTriggerTime`: does not model 64-bit `Long` overflow of the subtraction. Millisecond instants are unbounded integers.
- `KotlinText.LexLe`: compares characters by code point. Kotlin's `compareTo` compares UTF-16 code units, and the two orders differ only between supplementary characters and U+E000..U+FFFF.
- Alarm intents, notification channels, `AlarmReceiver` and logging are not part of this model.
- `restoreData` and the other CRUD wrappers of the repository are not part of this model.
