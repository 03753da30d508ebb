# Cross-functional fitness app: the logic under the windows

This project models the non-graphical core of a Java Swing fitness application.

- **Plan window.** It shows a 30-day workout plan. Each day has a button, a description from a catalog, and a detail panel with a "completed" checkbox and an hours field and a minutes field.
- **Saving a day.** The save button stores one record per day in its own file, `day<n>workout.txt`. The record is the line `Day: <day>, Completed: <flag>, Time Taken: <minutes>`. Loading a day reads that file back, or falls back to a default record.
- **Metrics.** Four linear scans compute a summary over the records: total minutes, the average of completed workouts, a consistency percentage and the personal best.
- **Profile form.** It validates first name, last name, age, weight and fitness level in a fixed order. It saves them as a five-line `userProfile.txt` and loads them back.

The model is split into six modules.

- `JavaText` (`java_text.dfy`) covers the pieces of the Java library the core relies on, written out exactly:
  - `Integer.parseInt`: optional sign, ASCII digits, no trimming, 32-bit range.
  - `String.valueOf(int)`.
  - 32-bit wrap-around.
  - Truncating `/` and `%`.
  - `String.trim`.
  - `String.split` with its trailing-empty-string removal.
  - `Boolean.parseBoolean`.
- `FileStore` (`file_store.dfy`) covers the file system and line I/O:
  - A `Disk` object holds a map from file name to file content.
  - `println` appends a line and `"\n"`.
  - `BufferedReader.readLine` breaks lines at `\n`, `\r` and `\r\n`.
  - `Scanner.nextLine` also breaks at U+2028, U+2029 and U+0085.
- `Workouts` (`workout_data.dfy`) covers the workout record, its one-line format, and `saveWorkout`/`loadWorkouts`.
- `Metrics` (`metrics.dfy`) covers the four loops of `FitnessMetricsCalculator`. Each is an imperative method proved against a recursive specification, including Java's int overflow in the sums.
- `Plan` (`plan.dfy`) covers the plan window:
  - the 30 detail panels, held in an array of objects;
  - the save button's hours/minutes arithmetic;
  - `parseAndSetTime`;
  - the description lookup;
  - the day-range guard of `loadWorkoutDetails`.
- `Profile` (`profile.dfy`) covers the profile form as an object with text fields and a level selection:
  - the ordered validation chain;
  - the file layout;
  - loading with the level lookup;
  - `resetFields`.

## Model

| member | source | states |
|---|---|---|
| JavaText.Wrap32 | CrossFunctionalFitnessApp/FitnessMetricsCalculator.java:77 | the Java int value of an exact sum: in 32-bit range, equal to the sum when it fits, congruent to it modulo 2^32 |
| JavaText.WrapAdd | CrossFunctionalFitnessApp/FitnessMetricsCalculator.java:40 | adding to an already wrapped accumulator wraps to the same value as wrapping the exact sum once |
| JavaText.JavaDiv | CrossFunctionalFitnessApp/WorkoutPlanGenerator.java:416 | Java `/` by a positive divisor truncates toward zero: for a non-negative dividend the quotient times the divisor is at most the dividend and within one divisor of it; for a negative dividend it is at least the dividend and within one divisor of it |
| JavaText.JavaRem | CrossFunctionalFitnessApp/WorkoutPlanGenerator.java:416-417 | Java `/` and `%` by a positive divisor: quotient * divisor + remainder is the dividend; the remainder is in [0, b) for a non-negative dividend and in (-b, 0] for a negative one |
| JavaText.ReadDigitsValue | CrossFunctionalFitnessApp/FitnessMetricsCalculator.java:77 | the digit reader succeeds exactly on a non-empty run of ASCII digits and yields its decimal value |
| JavaText.ParseIntShape | CrossFunctionalFitnessApp/NewUserProfile.java:447 | a successful parseInt has a 32-bit result, starts with a digit or a sign, and a '-' gives a non-positive value while no '-' gives a non-negative one |
| JavaText.NatToStringShape | CrossFunctionalFitnessApp/WorkoutPlanGenerator.java:231 | the decimal text of a natural is a non-empty digit string without a leading zero whose value is that natural |
| JavaText.IntToStringShape | CrossFunctionalFitnessApp/WorkoutPlanGenerator.java:231 | `String.valueOf(int)` is non-empty and holds only digits and '-' |
| JavaText.ParseIntToString | CrossFunctionalFitnessApp/WorkoutPlanGenerator.java:412 | parseInt of `String.valueOf(n)` gives back n for every 32-bit n |
| JavaText.IntToStringInjective | CrossFunctionalFitnessApp/WorkoutData.java:113 | different ints have different decimal texts |
| JavaText.TrimShape | CrossFunctionalFitnessApp/NewUserProfile.java:429 | the trimmed text is empty or neither starts nor ends with a character <= ' ', and it is empty exactly when every character is such a blank |
| JavaText.TrimCutsBlanks | CrossFunctionalFitnessApp/NewUserProfile.java:504-507 | trim returns a slice s[i..j] of its input where every character before i and from j on is a blank: it cuts blanks at both ends and nothing else |
| JavaText.SplitJoin | CrossFunctionalFitnessApp/WorkoutData.java:149 | joining the pieces of a split with the separator gives back the split text |
| JavaText.SplitAbsent | CrossFunctionalFitnessApp/WorkoutData.java:149 | a text without the separator splits into itself alone |
| JavaText.SplitAfter | CrossFunctionalFitnessApp/WorkoutData.java:149-151 | a text starting with a separator-free piece and the separator splits into that piece followed by the split of the rest |
| JavaText.ParseBooleanOfBoolText | CrossFunctionalFitnessApp/WorkoutData.java:150 | parseBoolean reads back the text Java prints for a boolean |
| JavaText.ParseBooleanIgnoresCase | CrossFunctionalFitnessApp/WorkoutData.java:150 | parseBoolean is true exactly when the text in lower case is "true", so it gives the same answer for a text and its lower-case form |
| FileStore.ReadPrinted | CrossFunctionalFitnessApp/WorkoutData.java:117 | reading back lines printed one per `println`, none holding a line terminator of the reader, gives exactly those lines |
| FileStore.PrintedAppend | CrossFunctionalFitnessApp/NewUserProfile.java:530-532 | printing one more line appends the line and its terminator to the file |
| FileStore.TakePrintedLine | CrossFunctionalFitnessApp/WorkoutData.java:148 | one readLine on a printed line returns the line and leaves the rest of the file |
| Workouts.SlotNameInjective | CrossFunctionalFitnessApp/WorkoutData.java:113 | different day numbers name different files |
| Workouts.SaveWorkout | CrossFunctionalFitnessApp/WorkoutData.java:110-124 | the day's file is replaced by the record's single line; every other file is unchanged |
| Workouts.LoadWorkouts | CrossFunctionalFitnessApp/WorkoutData.java:136-160 | the outcome is the load specification: an absent file gives ("Day n", false, "0"), a loaded record is always labelled "Day n", an existing empty file gives ("Day n", false, ""), and a malformed line is an escaping index error |
| Workouts.ReadValuesLastLine | CrossFunctionalFitnessApp/WorkoutData.java:148-152 | the read loop ends with the last line's values, and fails exactly when some line does not parse |
| Workouts.FormatSplits | CrossFunctionalFitnessApp/WorkoutData.java:97-99 | the saved line splits at ", " into exactly the day part, the completed part and the time part |
| Workouts.ParseFormat | CrossFunctionalFitnessApp/WorkoutData.java:149-151 | parsing the line of a storable record yields its flag and time |
| Workouts.EmptyTimeIsMalformed | CrossFunctionalFitnessApp/WorkoutData.java:151 | a record with an empty time is saved as a line that does not load (no value after ": ") |
| Workouts.LineWithoutSeparatorIsMalformed | CrossFunctionalFitnessApp/WorkoutData.java:150 | a line without ", " has no second part and does not load |
| Workouts.StorableLineHasNoBreak | CrossFunctionalFitnessApp/WorkoutData.java:117 | the line of a storable record holds no line terminator |
| Workouts.SaveLoadRoundTrip | CrossFunctionalFitnessApp/WorkoutData.java:110-154 | saving a storable record (d, c, t) for day n and loading day n gives ("Day n", c, t) |
| Workouts.LastLineWins | CrossFunctionalFitnessApp/WorkoutData.java:148-154 | when a file holds the lines of several storable records, loading yields the last one's flag and time |
| Metrics.CalculateTotalTime | CrossFunctionalFitnessApp/FitnessMetricsCalculator.java:67-87 | the result is the 32-bit sum of the parseable times of all records, completed or not; 0 for the empty list |
| Metrics.CalculateAverageTime | CrossFunctionalFitnessApp/FitnessMetricsCalculator.java:27-56 | 0 for the empty list or when no completed record's time parses; otherwise the 32-bit sum of the completed parseable times divided by their count |
| Metrics.CalculateConsistencyScore | CrossFunctionalFitnessApp/FitnessMetricsCalculator.java:101-122 | 0 for the empty list even with 0 planned; invalid argument for a non-empty list with 0 planned; otherwise 100 * completed / planned, counting completion whatever the time |
| Metrics.CalculatePersonalBests | CrossFunctionalFitnessApp/FitnessMetricsCalculator.java:134-156 | "No data available" for the empty list; otherwise "<time> minutes on <day>" of the record picked by the strict-improvement scan starting at record 0 |
| Metrics.TotalStep | CrossFunctionalFitnessApp/FitnessMetricsCalculator.java:75-84 | one step of the total loop adds the record's parsed time with wrap-around, or nothing when it does not parse |
| Metrics.AverageStep | CrossFunctionalFitnessApp/FitnessMetricsCalculator.java:37-49 | one step of the average loop adds time and count only for a completed record whose time parses |
| Metrics.UnparseableAddsNothing | CrossFunctionalFitnessApp/FitnessMetricsCalculator.java:78-82 | a record whose time does not parse changes no total, wherever it stands |
| Metrics.TotalIgnoresCompletion | CrossFunctionalFitnessApp/FitnessMetricsCalculator.java:75-84 | the total depends on the times only, not on the completed flags |
| Metrics.ParsedSumAppend | CrossFunctionalFitnessApp/FitnessMetricsCalculator.java:75-84 | the total of a concatenation is the sum of the totals |
| Metrics.TotalBounds | CrossFunctionalFitnessApp/FitnessMetricsCalculator.java:75-84 | with times in [0, hi] the exact total is in [0, length * hi] |
| Metrics.TotalTimeWithoutWrap | CrossFunctionalFitnessApp/FitnessMetricsCalculator.java:77 | when length * hi fits in an int, the 32-bit total equals the exact total and is in [0, length * hi] |
| Metrics.AverageBetween | CrossFunctionalFitnessApp/FitnessMetricsCalculator.java:37-55 | with non-negative completed times in [lo, hi] and no wrap-around, the average lies in [lo, hi] |
| Metrics.ConsistencyIsPercentage | CrossFunctionalFitnessApp/FitnessMetricsCalculator.java:112-121 | with at least as many planned workouts as records, the score is in [0, 100] |
| Metrics.CompletedOnlyMembers | CrossFunctionalFitnessApp/FitnessMetricsCalculator.java:38 | the records the average and the score count are records of the list, each completed |
| Metrics.CompletedOnlyAppend | CrossFunctionalFitnessApp/FitnessMetricsCalculator.java:115-119 | the completed records of a concatenation are those of each part, in order |
| Metrics.BestAmongIsFirstLongest | CrossFunctionalFitnessApp/FitnessMetricsCalculator.java:142-154 | when the first time parses, the scan picks a parseable time that no time exceeds and that every earlier time is below |
| Metrics.BestStaysAtUnparseableFirst | CrossFunctionalFitnessApp/FitnessMetricsCalculator.java:140-145 | an unparseable first time is never replaced |
| Metrics.FirstLongestUnique | CrossFunctionalFitnessApp/FitnessMetricsCalculator.java:145 | ties keep the earliest record: there is one first longest time |
| Metrics.PersonalBestCharacterised | CrossFunctionalFitnessApp/FitnessMetricsCalculator.java:134-156 | the reported record is b exactly when b is the first longest parseable time, if record 0 parses; otherwise it is record 0 |
| Plan.ParseField | CrossFunctionalFitnessApp/WorkoutPlanGenerator.java:215-227 | an hours or minutes field that reads as a number holds a 32-bit int |
| Plan.TotalMinutes | CrossFunctionalFitnessApp/WorkoutPlanGenerator.java:230 | hours * 60 + minutes as a Java int: always in range, and exact when neither the product nor the sum overflows |
| Plan.SavedTime | CrossFunctionalFitnessApp/WorkoutPlanGenerator.java:215-231 | the time text is produced exactly when both fields read as numbers |
| Plan.DisplayedTime | CrossFunctionalFitnessApp/WorkoutPlanGenerator.java:412-417 | the stored time is split into two fields exactly when it parses as an int |
| Plan.SplitOfJoin | CrossFunctionalFitnessApp/WorkoutPlanGenerator.java:416-417 | for h >= 0, 0 <= m < 60 and no overflow, splitting h * 60 + m gives back h and m |
| Plan.JoinOfSplit | CrossFunctionalFitnessApp/WorkoutPlanGenerator.java:416-417 | a non-negative total is rebuilt from its split, and its minutes part is below 60 |
| Plan.NegativeTimeDisplay | CrossFunctionalFitnessApp/WorkoutPlanGenerator.java:416-417 | a negative stored total shows non-positive hours and minutes in (-60, 0] |
| Plan.TimeFieldsRoundTrip | CrossFunctionalFitnessApp/WorkoutPlanGenerator.java:215-231 | fields reading as h and m (0 <= m < 60, no overflow) save a time that is displayed as the texts of h and m |
| Plan.FieldOfNumeral | CrossFunctionalFitnessApp/WorkoutPlanGenerator.java:416-417 | a field holding the decimal text of a 32-bit int reads back as that int |
| Plan.SplitFits | CrossFunctionalFitnessApp/WorkoutPlanGenerator.java:230 | the hours and minutes of any 32-bit time are 32-bit ints, and hours * 60 + minutes rebuilds the time without wrapping |
| Plan.ResaveKeepsTime | CrossFunctionalFitnessApp/WorkoutPlanGenerator.java:412-417 | a stored time shown in the fields and saved again without edits is stored as the same text, for every 32-bit time |
| Plan.DisplayOfNumber | CrossFunctionalFitnessApp/WorkoutPlanGenerator.java:412-417 | the decimal text of an int is displayed as its Java quotient and remainder by 60 |
| Plan.NumeralIsPlain | CrossFunctionalFitnessApp/WorkoutPlanGenerator.java:231 | a decimal time text holds no ',' or ':' and no line terminator |
| Plan.SavedRecordIsStorable | CrossFunctionalFitnessApp/WorkoutPlanGenerator.java:234-235 | the record the save button writes always survives its own line format |
| Plan.DayDetails.constructor | CrossFunctionalFitnessApp/WorkoutPlanGenerator.java:165-172 | a new panel is unchecked with both fields empty |
| Plan.ParseAndSetTime | CrossFunctionalFitnessApp/WorkoutPlanGenerator.java:406-424 | a parseable stored time sets hours to total / 60 and minutes to total % 60; any other time leaves both fields as they were; the checkbox is untouched |
| Plan.UpdateWorkoutDetails | CrossFunctionalFitnessApp/WorkoutPlanGenerator.java:378-391 | the checkbox takes the record's flag and the fields take its time as parseAndSetTime shows it |
| Plan.DayLabelsAt | CrossFunctionalFitnessApp/WorkoutPlanGenerator.java:102-105 | button k carries "Day k+1" |
| Plan.ShownPrefix | CrossFunctionalFitnessApp/WorkoutPlanGenerator.java:143-146 | days 1..n show exactly the first n catalog entries when the catalog has at least n, so the placeholder is not shown |
| Plan.DescriptionsUpToAt | CrossFunctionalFitnessApp/WorkoutPlanGenerator.java:143-148 | panel k shows the description of day k+1 |
| Plan.CreateWorkoutDetailsPanel | CrossFunctionalFitnessApp/WorkoutPlanGenerator.java:130-182 | the day's description is looked up, and a fresh empty panel is stored in array slot n-1 only |
| Plan.AddWorkoutDaysAndDetails | CrossFunctionalFitnessApp/WorkoutPlanGenerator.java:92-112 | for every day 1..30: label "Day i", the description of day i, and a fresh empty panel in slot i-1; all panels are distinct objects |
| Plan.PlanGenerator.constructor | CrossFunctionalFitnessApp/WorkoutPlanGenerator.java:30-35 | with the 30-entry catalog, a 30-slot panel array is filled with distinct fresh empty panels, button i is labelled "Day i+1", and the descriptions shown are exactly the catalog in day order |
| Plan.PlanGenerator.Save | CrossFunctionalFitnessApp/WorkoutPlanGenerator.java:209-247 | when both fields read as numbers, day n's file gets the record ("Day n", checkbox, decimal hours * 60 + minutes); otherwise nothing is written |
| Plan.PlanGenerator.LoadWorkoutDetails | CrossFunctionalFitnessApp/WorkoutPlanGenerator.java:350-360 | a day outside 1..30 changes nothing; otherwise the day's panel shows the loaded record, or stays as it was when the load fails; no other panel changes |
| Plan.SaveThenLoadDay | CrossFunctionalFitnessApp/WorkoutPlanGenerator.java:209-235 | saving fields that read as h and m (0 <= m < 60, no overflow) and loading the day shows the same checkbox and the texts of h and m |
| Profile.LevelOfLabelIsInverse | CrossFunctionalFitnessApp/NewUserProfile.java:606-625 | a line selects a level exactly when it is that level's button label |
| Profile.LevelsListEveryLevelOnce | CrossFunctionalFitnessApp/NewUserProfile.java:76-81 | the button group lists each of the five levels exactly once |
| Profile.CheckVerdict | CrossFunctionalFitnessApp/NewUserProfile.java:427-490 | each of the seven checks reports its own error, never acceptance |
| Profile.PassesBeforeStep | CrossFunctionalFitnessApp/NewUserProfile.java:427-490 | the checks before k+1 pass exactly when those before k pass and check k does too |
| Profile.DecideIsFirstFailure | CrossFunctionalFitnessApp/NewUserProfile.java:427-490 | the chain of ifs is the same as running the checks in order from the first |
| Profile.DecideFromReports | CrossFunctionalFitnessApp/NewUserProfile.java:427-490 | running the checks from k reports check m's error exactly when m fails and every check before it passes |
| Profile.NeverReportsEarlier | CrossFunctionalFitnessApp/NewUserProfile.java:427-490 | running the checks from k never reports an earlier check's error |
| Profile.DecideFromAccepts | CrossFunctionalFitnessApp/NewUserProfile.java:427-490 | running the checks from k accepts exactly when all seven pass |
| Profile.ValidateReportsFirstFailure | CrossFunctionalFitnessApp/NewUserProfile.java:427-490 | validation reports check k's error exactly when check k fails and all earlier checks pass |
| Profile.ValidateAcceptsIffAllPass | CrossFunctionalFitnessApp/NewUserProfile.java:427-490 | validation accepts exactly when every check passes |
| Profile.AgeAcceptedExactly | CrossFunctionalFitnessApp/NewUserProfile.java:445-461 | with both names present, no age error is reported exactly when the trimmed age parses to an int in [1, 100] |
| Profile.AcceptedHasLevel | CrossFunctionalFitnessApp/NewUserProfile.java:481-488 | an accepted form has a level selected |
| Profile.ProfileLines | CrossFunctionalFitnessApp/NewUserProfile.java:501-523 | the file has five lines when a level is selected, four otherwise |
| Profile.ProfileForm.constructor | CrossFunctionalFitnessApp/NewUserProfile.java:62-81 | a new form has empty fields and no level selected |
| Profile.ProfileForm.SaveUserProfile | CrossFunctionalFitnessApp/NewUserProfile.java:499-543 | the profile file is replaced by the trimmed fields and the label of the first selected level; other files are unchanged |
| Profile.ProfileForm.SaveClicked | CrossFunctionalFitnessApp/NewUserProfile.java:386-390 | the profile is written exactly when validation accepts; otherwise the disk is unchanged |
| Profile.ProfileForm.ResetFields | CrossFunctionalFitnessApp/NewUserProfile.java:549-558 | all four fields become empty and no level is selected |
| Profile.ProfileForm.LoadUserData | CrossFunctionalFitnessApp/NewUserProfile.java:584-632 | a missing file changes nothing; otherwise the fields take the lines read, and fewer than five lines end in an escaping index error after the fields read so far were set |
| Profile.LabelHasNoBreak | CrossFunctionalFitnessApp/NewUserProfile.java:69-73 | no level label holds a line terminator |
| Profile.ProfileRoundTrip | CrossFunctionalFitnessApp/NewUserProfile.java:499-625 | with a level selected and no line terminator in the trimmed fields, loading after saving restores the trimmed fields and the level |
| Profile.AcceptedProfileRoundTrip | CrossFunctionalFitnessApp/NewUserProfile.java:386-625 | an accepted form with no line terminator in its trimmed fields is saved as five lines, and loading them restores its trimmed fields and its level |
| Profile.ProfileWithoutLevelFailsToLoad | CrossFunctionalFitnessApp/NewUserProfile.java:513-606 | a profile saved without a level reads back as four lines: the fields are restored and the load then fails |

## Left out

- Swing layout, fonts, colours, card switching, window navigation, `exitWindow`, and the message dialogs and `printStackTrace` calls. A caught error is modelled as "nothing more happens". An error that escapes is modelled as an outcome value (`IndexOutOfBounds`, `LoadFailed`, `ProfileTooShort`).
- `FitnessSummary.java` and `CrossFunctionalFitness.java` are not part of this model.
  - The metrics are stated for any list of records.
  - That the window passes the 30 loaded records in day order is not modelled.
- The `Disk` model does not cover:
  - an `IOException` while writing, because every write is modelled as succeeding;
  - a file that exists but cannot be read, because it is modelled as absent;
  - the platform line separator, because `println` is modelled as writing `"\n"`.
- `Double.parseDouble` is a parameter of validation, not modelled. The weight check uses exact reals rather than doubles.
- Double rounding of the average and the score is not modelled: both are exact reals. `String.format("%.2f")` display formatting is not modelled either.
- `Integer.parseInt` accepts non-ASCII Unicode digits. The model accepts ASCII digits only.
- The `WorkoutData` setters are never called in the application, so they are left out.
- The literal text of the 30 workout descriptions is left out. The catalog is a parameter, and the plan window requires it to hold 30 entries.
- The null checks in `updateWorkoutDetails` and `parseAndSetTime` are left out, because they cannot trigger: every panel is created before it is used, and a loaded record and its time are never null.
- `resetWorkoutDetails` is called only from the null branch of `updateWorkoutDetails`, so it is left out for the same reason.
- Plan.DescriptionFor requires a day number of at least 1. Every caller passes 1..30, and a smaller number would be an index error in Java.
- A few behaviours follow the code rather than the design description:
  - An existing but empty day file loads as time `""`, not `"0"`.
  - A malformed workout line does not fall back to the default record. It makes `loadWorkouts` fail with an uncaught index error (`IndexOutOfBounds`).
  - An unknown level label in the profile file leaves the level selection as it was, because no button is selected.
  - A profile file with fewer than five lines sets the fields it has lines for before the index error escapes.
