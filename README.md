# Face-ID attendance: enrolled-face matching and punch cooldown

This project models the two pieces of decision logic in a face-recognition attendance kiosk:

- **The enrolled-face database** (`FaceSystem` in `src/core.py`), in module `FaceRecognition` (`face_system.dfy`). The database is a class with two parallel sequences, `names` and `encodings`. `RegisterUser` appends to both when a face was detected. `Identify` is the scan loop. It keeps a running maximum that starts at 0 and switches its choice only when a score beats that maximum strictly and exceeds the 0.4 threshold. The loop is proved equal to an independent reference, `Selection`. That reference picks the name at the first entry attaining the best score, or "Unknown" when no score is above the threshold.
- **The attendance log** (`log_action` / `get_logs` in `src/utils.py`), in module `Attendance` (`attendance.dfy`). The `logs` table is a class holding its rows in id order and its AUTOINCREMENT counter. `LogAction` consults only the same person's highest-id row. It refuses the punch when that row's timestamp parses and lies less than 60 seconds before now, which includes a clock that went backwards. Otherwise it appends exactly one row with a fresh, larger id. `GetLogs` returns every row, newest id first.

Abstractions:

- Face detection plus feature extraction becomes an `Option<Encoding>`, where `None` means no face was found.
- The recognizer's cosine match becomes a function parameter `sim`.
- The wall clock becomes a parameter `now`, in whole seconds.
- A stored timestamp is either `At(seconds)` or `Unparsed(text)`.

Counting in whole seconds is exact. A stored timestamp is written to the second. So the real-valued difference `now - last` is below 60 exactly when the floor of `now` minus `last` is below 60.

Python's `zip` stops at the shorter list, so `Identify` scans `Entries()` pairs, the smaller of the two lengths. It needs no precondition that the lists have equal length. `RegisterUser` keeps their lengths equal.

"Unknown" is an ordinary string in the source, so a person may be enrolled under that name. The statement "the result is Unknown exactly when the best score is at most 0.4" therefore holds only when nobody is enrolled as "Unknown". `SelectionIsUnknownIff` carries that condition. `Selection`'s own contract states both cases without it.

## Model

| member | source | states |
|---|---|---|
| FaceRecognition.Scores | src/core.py:85-86 | one score per stored embedding, in database order, each the recognizer's match of the query against that embedding |
| FaceRecognition.BestScore | src/core.py:77-88 | the reported score is at least 0, at least every entry's score, and is either 0 or one of the entry scores: the maximum of 0 and all scores |
| FaceRecognition.Selection | src/core.py:83-90 | when the best score is at most the 0.4 threshold the name is Unknown; otherwise it is the name at an entry whose score equals the best score and that every earlier entry scores strictly below |
| FaceRecognition.SelectionStep | src/core.py:85-90 | appending an entry with score x raises the best score to x exactly when x beats it, and changes the chosen name to the new entry's name exactly when x beats the running maximum strictly and exceeds the threshold |
| FaceRecognition.SelectionIsUnknownIff | src/core.py:83-90 | if nobody is enrolled as "Unknown", the result is Unknown if and only if the best score is at most 0.4 |
| FaceRecognition.RecognizedIsEnrolled | src/core.py:85-90 | any result other than Unknown is an enrolled name whose entry scores above 0.4, and the best score is above 0.4 |
| FaceRecognition.TieGoesToEarliest | src/core.py:87-90 | the first entry attaining a best score above the threshold is named, whatever later entries tie with it |
| FaceRecognition.EmptyDatabaseIsUnknown | src/core.py:74-75 | an empty database yields Unknown with score 0 |
| FaceRecognition.FaceSystem.Entries | src/core.py:85 | the pairwise scan visits as many entries as the shorter of the two lists; on a consistent database, every enrolled entry |
| FaceRecognition.FaceSystem.constructor | src/core.py:24 | a new database has no names and no encodings |
| FaceRecognition.FaceSystem.RegisterUser | src/core.py:59-67 | without a face it returns false and changes neither list; with one it returns true and appends exactly the name and the encoding, leaving earlier entries as they were and keeping the lists equally long |
| FaceRecognition.FaceSystem.Identify | src/core.py:69-92 | without a face it returns ("No Face", 0); otherwise the score is the best score over the scanned entries and the name is the reference Selection for those scores |
| Attendance.LatestFor | src/utils.py:43-51 | None exactly when the person has no row; otherwise a row of that person, on an id-ordered table the one whose id is at least every other id of that person's rows |
| Attendance.RecentPunch | src/utils.py:49-63 | the vetoing row is the person's latest row (on an id-ordered table, the highest-id one) when its stamp parses and now minus that stamp is below 60; otherwise there is none, because the person has no row, the latest stamp does not parse, or 60 seconds or more have passed |
| Attendance.RowsOf | src/utils.py:43-47 | exactly the person's rows, every one of them, all taken from the table, and kept in increasing id order when the table is |
| Attendance.RefusedIffRecentLatest | src/utils.py:43-63 | a punch is refused if and only if the person's highest-id row has a parsed timestamp less than 60 seconds before now, a negative difference included |
| Attendance.UnparsedStampNeverRefuses | src/utils.py:56-69 | when the person's latest timestamp does not parse, the cooldown check is skipped and the punch is not refused |
| Attendance.OtherPeopleIgnored | src/utils.py:43-51 | the decision depends only on the person's own rows: removing everyone else's rows leaves it unchanged |
| Attendance.LatestOwnRows | src/utils.py:43-47 | the person's latest row in the whole table is the latest of that person's own rows |
| Attendance.PunchStartsCooldown | src/utils.py:60-73 | after a punch at time t, the same person's next punch is accepted exactly when it comes at least 60 seconds after t, whatever either action is |
| Attendance.NewestFirst | src/utils.py:85 | the rows read back are the table's rows in reverse order, the same multiset of rows |
| Attendance.AttendanceLog.Open | src/utils.py:19-26 | an opened table holds its existing rows in id order, and its counter is above every id |
| Attendance.AttendanceLog.LogAction | src/utils.py:30-77 | returns true exactly when no recent own row vetoes the punch; then it appends exactly one row (name, action, now) whose id is above every existing id, and modifies or removes no existing row; a refused punch leaves the table unchanged and reports the last action and the elapsed seconds |
| Attendance.AttendanceLog.GetLogs | src/utils.py:79-87 | returns every row of the table, the same multiset, in strictly decreasing id order |

## Left out

- Face detection, alignment, feature extraction and the cosine similarity are foreign vision-library calls over floating point. They are parameters here: an optional encoding and the function `sim`.
- Model provisioning, which downloads and checks the model files, is network and file I/O.
- Pickle persistence of the face database (`load_db`, `save_db`) is storage I/O. The constructor starts from an empty database.
- SQLite connections and `init_db` table creation are storage I/O. The table is held in memory, and `Open` stands for connecting to an existing table.
- Calls are modelled one at a time, each as a single step. The source takes no lock. The page shares one cached face database across sessions, and `log_action` runs its query and its insert with no transaction around them. So overlapping `register_user` or `log_action` calls from concurrent sessions can interleave. The two lists can then end up mis-paired, with one person's name beside another's encoding, and two punches by the same person can both land within 60 seconds.
- The Streamlit page, camera widget and button wiring are UI glue.
- Date formatting with `strftime`/`strptime` is not modelled. Stamps are whole seconds or unparsable text, and the exact message strings are replaced by the `Outcome` tag.
- Attendance.AttendanceLog.LogAction: the reported elapsed time is `now - last` in whole seconds, taking the floor of the clock reading. Python's `int()` truncates toward zero, so the model's value is one less than the source's whenever the difference is negative and not a whole number of seconds. For example, a clock set back 1.5 s gives -1 in the source and -2 in the model. Only the message text differs, never the decision.
- FaceRecognition.Threshold: scores and the threshold are mathematical reals, so floating-point rounding is not modelled. Its one visible effect is at the boundary. The double `0.4` lies slightly above the real 0.4. A score exactly equal to that double is not named by the source, because `>` is false, while the model's real `Threshold` would name it.
