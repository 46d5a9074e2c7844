# hcl_utils core, modelled in Dafny

This project models the computational core of the hcl_utils scripts. Their logic is
calendar-month arithmetic on (year, month) pairs, plus two small selection rules.

- **Release calculators.**
  - `QRelease` (`qrelease/qrelease.py`) snaps a start month onto a grid of `relPeriod` months (1 for a monthly calendar, 3 otherwise) with `m - m % p`. It applies one ±12 correction to the year. It then derives the previous, two-back and next releases and renders each one as `YYYY.MM` and a short `YYMM`.
  - `QRelease2` (`qrelease/QRelease2.py`) does the same for any period `every`. It builds a real `date` for each release and wraps it in a `Quarter` record.
- **Month walker.** `BackToTheFuture` (`back_to_the_future/BackToTheFuture.py`) lists one date per year, or one date per calendar month, from a date some years back. Every date falls on day 5.
- **Image tags.** `ImageBuilder.get_tags` (`shin_yoonbok/ImageBuilder.py`) pairs the empty tag and each additional tag with the stamps `latest` and the build date.
- **Frame lists.** `FrameAnimator.create_lists` (`fandom_gifs/animate_frames.py`) splits the `.jpg` names of a directory by the parity of their eighth character. It then sorts both lists.

The model follows the code's own shape:

- `QRelease`, `BackToTheFuture`, `ImageBuilder` and `FrameAnimator` are classes whose constructors set their fields.
- `byYear`, `byMonth`, `get_tags` and `create_lists` are methods with loops. Each is proved against a specification function.
- `getYearMonth`, `getTuple`, `getStartOfQuarter` and `Quarter` are functions and datatypes.

Python's exceptions become `Result` values, and the `ValueError` of `date()` names the field it rejects first. Python's `%` (which can see negative months), `"%02d"`, `str`, `int`, slicing and `sorted` on strings are written out in the modules `Grid`, `Decimal` and `StringOrder`. The `//` and `%` of `byMonth` are Dafny's `/` and `%`, which agree with Python's there because the loop's operands are never negative (`MonthWalker.LoopArithmetic`). `Calendar` holds the date type and a reference calendar-month addition (`AddMonths`) that the window properties are stated against.

Quarterly releases fall on months 03, 06, 09 and 12, and January and February belong to December of the previous year (`qrelease/qrelease.py:84-88`). So (2024, 1) has current release 2023.12 and previous release 2023.09 (`ReleaseV1.RelPeriodGrid`, `ReleaseV2.QuarterlyJanuary`).

## Model

| member | source | states |
|---|---|---|
| Grid.PyMod | qrelease/qrelease.py:84 | Python's `%`: for a positive divisor the remainder lies in `[0, p)`; for a negative one it lies in `(p, 0]` and differs from the dividend by a multiple of the divisor |
| Grid.Reduce | qrelease/qrelease.py:84 | `m - m % p` is the largest multiple of p not above m for p > 0, and the smallest not below m for p < 0 |
| Grid.Snap | qrelease/qrelease.py:84-92 | the single ±12 correction only moves whole years: `12*year + month` is preserved; the year moves back exactly when the reduced month is ≤ 0 and forward exactly when it is > 12; the month is a calendar month exactly when the reduced month is in -11..24 |
| Grid.SnapOfCalendarMonth | qrelease/qrelease.py:84-92 | for a calendar month and a period dividing twelve, the release month is a calendar month on the grid, at most p-1 months before the start month |
| Grid.SnapIdempotent | qrelease/qrelease.py:84-94 | snapping a release month again returns it unchanged |
| Grid.ReduceShift | qrelease/QRelease2.py:16-23 | moving a month by k whole periods moves its reduced month by the same k periods |
| Grid.SnapShift | qrelease/QRelease2.py:16-23 | snapping the month moved by k periods is calendar addition of k periods to the snapped month, while the reduced months stay within the single correction |
| Decimal.IntToStringRoundTrip | qrelease/qrelease.py:53 | `int(str(n)) == n` for every integer |
| Decimal.Pad2RoundTrip | qrelease/qrelease.py:55 | `int("%02d" % n) == n` for every integer, negative values included |
| Decimal.Pad2TwoDigits | qrelease/qrelease.py:93 | below 100, `"%02d"` is exactly the tens digit and the units digit |
| Decimal.LastTwoDigits | qrelease/qrelease.py:107 | `str(n)[-2:]` is `"%02d" % (n % 100)` once n has two digits |
| Calendar.MakeDate | qrelease/QRelease2.py:38 | `date(y, m, d)` succeeds exactly on a valid date and returns it; a valid year with a bad month raises the month error |
| Calendar.AddMonthsStep | back_to_the_future/BackToTheFuture.py:24-33 | one more month of calendar addition is one step of the month successor, December rolling to January |
| ReleaseV1.RelPeriod | qrelease/qrelease.py:45-48 | the period is 1 exactly when the calendar is monthly and 3 exactly when it is not |
| ReleaseV1.GetYearMonth | qrelease/qrelease.py:71-94 | the padded month reads back as a number; the release is the grid month of the input with only whole years moved; the year moves back one exactly when the reduced month is not positive and forward one exactly when it passes 12; the month has two digits whenever the correction brings it into 1..12 |
| ReleaseV1.Shifted | qrelease/qrelease.py:52-68 | a neighbour computed from the current month string moved by k periods is the grid month of that shifted month |
| ReleaseV1.RelPeriodGrid | qrelease/qrelease.py:84-92 | monthly: the release is the start month; quarterly: the release month is 3, 6, 9 or 12; January and February give December of the previous year; later months keep the year |
| ReleaseV1.GetYearMonthIdempotent | qrelease/qrelease.py:84-94 | getYearMonth applied to its own output returns that output |
| ReleaseV1.ShiftedRelease | qrelease/qrelease.py:55-56 | a grid month moved by -2..1 periods and snapped again is calendar addition of those periods |
| ReleaseV1.NeighbourRelease | qrelease/qrelease.py:55-56 | the padded shifted month string reads back, and getYearMonth on it gives the calendar neighbour, so the neighbour derived from a grid month's padded string k periods away is that calendar month |
| ReleaseV1.WindowNeighbour | qrelease/qrelease.py:52-68 | each neighbour the constructor derives from the current month string is k periods from the current release on the calendar |
| ReleaseV1.ReleaseWindow | qrelease/qrelease.py:49-69 | the current release is the grid month; previous, two-back and next are one and two periods before it and one after it on the calendar |
| ReleaseV1.NeighboursOnGrid | qrelease/qrelease.py:49-69 | all four releases of the window are calendar months and multiples of the period |
| ReleaseV1.Releases | qrelease/qrelease.py:49-69 | the four (year, month string) pairs the constructor computes are those of the grid month of the start and of the calendar months one and two periods before it and one after it |
| ReleaseV1.ReleaseLabel | qrelease/qrelease.py:106-107 | for a four-digit year the label has 7 characters with a dot at index 4, splits back into the year and the month, and the short form is the label without century and dot |
| ReleaseV1.GetTuple | qrelease/qrelease.py:96-108 | the label is the year, a dot and the month, and the part before the dot reads back as the year; from two-digit years on, the short form is the year mod 100 as two digits followed by the month |
| ReleaseV1.QuarterlyJanuary | qrelease/qrelease.py:84-88 | quarterly, January snaps to December of the previous year and the quarter before is September |
| ReleaseV1.StoredWindow | qrelease/qrelease.py:31-69 | the state the constructor computes: the period follows `monthly`; the current release is the latest grid month not after the start; the four releases and their labels describe that grid month and the calendar months one and two periods before it and one after it |
| ReleaseV1.QRelease.constructor | qrelease/qrelease.py:31-69 | the seventeen fields hold exactly that state |
| ReleaseV2.MakeQuarter | qrelease/QRelease2.py:52-60 | the Quarter keeps the start year; its month reads back as the start month and has two digits for any month below 100; the label is the year, a dot and that month; the abbreviation is the year without its first two characters, then that month |
| ReleaseV2.FirstOfMonth | qrelease/QRelease2.py:38 | day 1 of a computed month is built by `date(y, m, 1)`: it exists exactly when the year and month are in range, a bad year is reported before a bad month, and the ValueError is wrapped |
| ReleaseV2.GetStartOfQuarter | qrelease/QRelease2.py:25-38 | a zero period raises; a returned date is day 1 of a calendar month of a year a date can hold |
| ReleaseV2.StartOfQuarterSpec | qrelease/QRelease2.py:25-38 | a zero period raises; otherwise day 1 of the grid month is returned exactly when that month is a calendar month of a year a date can hold, and a bad month raises the month error |
| ReleaseV2.Gather | qrelease/QRelease2.py:14-23 | the four releases are built exactly when all four succeed, and otherwise the failure of the first failing step, in the order current, previous, before, next, is raised |
| ReleaseV2.QuarterStarts | qrelease/QRelease2.py:14-23 | a zero period raises; found start dates all fall on day 1 |
| ReleaseV2.Assemble | qrelease/QRelease2.py:12-14 | the object keeps the query date and the period, and its current Quarter is built from the current start date |
| ReleaseV2.NewQRelease2 | qrelease/QRelease2.py:5-23 | a built object keeps the query date and the period; a zero period always raises |
| ReleaseV2.Assembled | qrelease/QRelease2.py:14-23 | the object is built exactly when the four start dates are, and then holds their Quarters |
| ReleaseV2.MonthlyIsQueryMonth | qrelease/QRelease2.py:29-38 | with a one-month period the current release starts on day 1 of the query's own month |
| ReleaseV2.ReduceOfCalendarMonth | qrelease/QRelease2.py:29 | for a period dividing twelve, the reduced month of a calendar month lies between 0 and the month |
| ReleaseV2.WindowStepFound | qrelease/QRelease2.py:16-23 | a raw query month moved by k periods gives a date exactly when its reduced month stays above -12 |
| ReleaseV2.WindowStepValue | qrelease/QRelease2.py:16-23 | that date is day 1 of the current release moved by k periods on the calendar |
| ReleaseV2.WindowStartsFound | qrelease/QRelease2.py:14-23 | the four start dates are found exactly when the reduced query month is at least `2*every - 11` |
| ReleaseV2.CurrentStart | qrelease/QRelease2.py:14 | the current start is day 1 of the query's grid month |
| ReleaseV2.PreviousStart | qrelease/QRelease2.py:16-17 | the previous start is one period before the current one on the calendar |
| ReleaseV2.BeforeStart | qrelease/QRelease2.py:19-20 | the before start is two periods before the current one on the calendar |
| ReleaseV2.NextStart | qrelease/QRelease2.py:22-23 | the next start is one period after the current one on the calendar |
| ReleaseV2.Window | qrelease/QRelease2.py:5-23 | for a period of 1..12 the object is built exactly when the reduced query month is at least `2*every - 11`, and then its four Quarters are those of the current release and its calendar neighbours |
| ReleaseV2.QuarterlyJanuary | qrelease/QRelease2.py:14-38 | quarterly, a January query gives December, September and June of the previous year and March of its own year |
| ReleaseV2.SliceAgreement | qrelease/QRelease2.py:60 | `s[2:]` and `s[-2:]` agree on a nonempty string exactly when it has four characters |
| ReleaseV2.YearSuffix | qrelease/QRelease2.py:60 | `str(year)[2:]` is the last two digits of the year exactly when the year has four digits |
| ReleaseV2.AbbreviationIsShortForm | qrelease/QRelease2.py:60 | for a four-digit year the abbreviation is the year mod 100 followed by the month, both as two digits |
| ReleaseV2.QuarterLabel | qrelease/QRelease2.py:57-60 | for a four-digit year the release label is "YYYY.MM" and splits back into year and month; the abbreviation has four characters |
| ReleaseV2.ShortPeriodsBuild | qrelease/QRelease2.py:14-38 | with a period of 1 to 5 months the object is built for every query month |
| ReleaseV2.HalfYearlyEarlyMonthsFail | qrelease/QRelease2.py:19-20 | with a six-month period a query in January to May raises the month ValueError |
| ReleaseV2.YearlyAlwaysFails | qrelease/QRelease2.py:16-20 | with a twelve-month period every query raises the month ValueError |
| ReleaseV2.NewQRelease2Calendar | qrelease/QRelease2.py:5-23 | the corrected constructor keeps the query date and the period and raises on a zero period |
| ReleaseV2.NearbyMonthIsDate | qrelease/QRelease2.py:38 | day 1 of a month up to two years back or one year on from a month away from the ends of the date range is a valid date |
| ReleaseV2.CalendarWindow | qrelease/QRelease2.py:14-23 | with calendar arithmetic the four start dates are the current release and its calendar neighbours, for every period of 1..12 |
| ReleaseV2.CalendarAlwaysBuilds | qrelease/QRelease2.py:14-23 | the corrected constructor always builds the intended window |
| ReleaseV2.CalendarAgrees | qrelease/QRelease2.py:14-23 | wherever the constructor as written succeeds, the corrected one builds the same object |
| MonthWalker.RangeLength | back_to_the_future/BackToTheFuture.py:24 | `range(n)` has n iterations, none when n is negative |
| MonthWalker.LoopArithmetic | back_to_the_future/BackToTheFuture.py:25-32 | the loop body's `//`, `%` and December branch compute calendar addition of m months to `yearsAgo`'s month |
| MonthWalker.ClosedForm | back_to_the_future/BackToTheFuture.py:25-32 | the m-th month is year `yy + (ym+m-1) div 12` and month `(ym+m-1) mod 12 + 1` |
| MonthWalker.ConsecutiveMonths | back_to_the_future/BackToTheFuture.py:24-33 | consecutive dates are one calendar month apart, on the same day |
| MonthWalker.MonthWalkStart | back_to_the_future/BackToTheFuture.py:24-33 | the walk starts on `yearsAgo`'s year and month, and every month is in 1..12 |
| MonthWalker.TwelveMonthsIsAYear | back_to_the_future/BackToTheFuture.py:24-33 | twelve steps on, the walk is on the same month one year later |
| MonthWalker.MonthWalkValid | back_to_the_future/BackToTheFuture.py:33 | every date up to an index is valid exactly when the last one's year is at most 9999 |
| MonthWalker.BackToTheFuture.constructor | back_to_the_future/BackToTheFuture.py:11-17 | `rightNow` is day 5 of the given year and month, `loopRange` is `numberOfYears*12 + 1`, and the walker is valid |
| MonthWalker.BackToTheFuture.ByYear | back_to_the_future/BackToTheFuture.py:19-21 | one valid date per year from `yearsAgo`'s year to `rightNow`'s inclusive, in order, with `rightNow`'s month and day |
| MonthWalker.BackToTheFuture.ByMonth | back_to_the_future/BackToTheFuture.py:23-33 | the i-th date is i calendar months after `yearsAgo` on day 5; all `loopRange` dates are produced unless `date()` rejects one, which happens exactly when the last year passes 9999, and then the dates before it and its error are returned |
| ImageTags.TagsOfMembers | shin_yoonbok/ImageBuilder.py:69-74 | a tag is produced exactly when it is some listed tag with one of the two stamps |
| ImageTags.NoAdditionalTags | shin_yoonbok/ImageBuilder.py:69-75 | with no additional tags the set is exactly {"latest", tag date} |
| ImageTags.AdditionalTagPushed | shin_yoonbok/ImageBuilder.py:69-74 | every non-empty additional tag is produced with a dash and each of the two stamps |
| ImageTags.OnlyStampedTags | shin_yoonbok/ImageBuilder.py:70-74 | every produced tag is a bare stamp or a non-empty additional tag, a dash and a stamp |
| ImageTags.EmptyTagsAddNothing | shin_yoonbok/ImageBuilder.py:70-74 | empty additional tags add nothing beyond the two bare stamps |
| ImageTags.TagCount | shin_yoonbok/ImageBuilder.py:68-74 | the set holds at most two tags per entry of the list |
| ImageTags.ImageBuilder.constructor | shin_yoonbok/ImageBuilder.py:15-23 | `None` additional tags become the empty list, and the tags are those of `[""]` plus the additional tags |
| ImageTags.ImageBuilder.GetTags | shin_yoonbok/ImageBuilder.py:66-75 | the nested loops produce exactly the tag set of `[""]` plus the additional tags |
| StringOrder.LexLeqTotal | fandom_gifs/animate_frames.py:50 | any two strings are ordered one way or the other |
| StringOrder.LexLeqTransitive | fandom_gifs/animate_frames.py:50 | the string order is transitive |
| StringOrder.LexLeqAntisymmetric | fandom_gifs/animate_frames.py:50 | strings ordered both ways are equal |
| StringOrder.Insert | fandom_gifs/animate_frames.py:50 | inserting into a sorted list keeps it sorted and adds exactly the one element |
| StringOrder.Sort | fandom_gifs/animate_frames.py:50 | `sorted` returns a sorted permutation of its input |
| StringOrder.SortedUnique | fandom_gifs/animate_frames.py:50 | two sorted permutations of the same strings are equal, so the sorted lists are determined by their contents |
| FrameLists.HasSubstringAt | fandom_gifs/animate_frames.py:45 | `".jpg" in file` holds exactly when the substring occurs at some index |
| FrameLists.Place | fandom_gifs/animate_frames.py:45-49 | a name is skipped exactly when it lacks ".jpg"; without odd-frame removal every ".jpg" name is kept; an error names the file that raised it |
| FrameLists.Scan | fandom_gifs/animate_frames.py:44-49 | the two lists together hold at most as many names as the listing, and a failure names a file of the listing |
| FrameLists.JpgNamesMembers | fandom_gifs/animate_frames.py:45 | the ".jpg" names are exactly the listed names containing ".jpg" |
| FrameLists.ScanPartition | fandom_gifs/animate_frames.py:44-49 | the kept and the removed names together are exactly the ".jpg" names, with multiplicity |
| FrameLists.ScanPlacements | fandom_gifs/animate_frames.py:44-49 | a kept name is a listed name that its parity test keeps, and a removed name is one that the test removes |
| FrameLists.EveryNamePlaced | fandom_gifs/animate_frames.py:44-49 | a listed name is kept, or removed, exactly when its placement says so; a name without ".jpg" is in neither list |
| FrameLists.KeepAllFrames | fandom_gifs/animate_frames.py:46-49 | without odd-frame removal nothing raises, nothing is removed and every ".jpg" name is a frame |
| FrameLists.RaisesOnBadFrameNumber | fandom_gifs/animate_frames.py:46-47 | with odd-frame removal a ".jpg" name raises exactly when it has fewer than eight characters or a non-digit at index 7, and is removed exactly when that digit is odd |
| FrameLists.ScanFailure | fandom_gifs/animate_frames.py:44-46 | the walk raises exactly when some name raises, and then with the error of the first such name |
| FrameLists.ScanStops | fandom_gifs/animate_frames.py:44-46 | the first name that raises ends the walk with its error |
| FrameLists.CreateLists | fandom_gifs/animate_frames.py:41-50 | the loop returns the sorted kept and removed lists of the walk, or the first error; both lists are sorted |
| FrameLists.FrameAnimator.constructor | fandom_gifs/animate_frames.py:21-24 | the animator holds the flag and both lists |
| FrameLists.NewFrameAnimator | fandom_gifs/animate_frames.py:16-26 | an animator is built exactly when `create_lists` succeeds with at least one frame; otherwise construction raises what `create_lists` raises, or the no-frame error; a built animator holds the two sorted lists |

## Left out

- The clock and date parsing are inputs. `datetime.now()` defaults, `strptime` of the query date and of `rightNow`, and the UTC build date of `get_tags` are passed in as year, month, day and stamp values. A query date is therefore a valid `Date`.
- The `args` override of `QRelease` (`qrelease/qrelease.py:40-41`) is not modelled. It matches a regular expression in which `.` is any character and then splits on a literal dot. The model takes year and month as numbers, the start-date branch.
- `yearsAgo` is an input. The constructor computes it by subtracting `numberOfYears*365` days with library day arithmetic, in which leap days shift the result.
- MonthWalker.BackToTheFuture.constructor requires a year of 1000..9999 and a calendar month. For an `int` year that is what `strptime` accepts, since `%Y` takes exactly four digits. A `str` year may be zero-padded (`"0999"` gives year 999), and years 1..999 reached that way are not modelled. The model does not raise the `strptime` error itself.
- `int()` accepts more than the strings the programs build: signs, surrounding whitespace, underscores and non-ASCII digits. The model reads only ASCII digits with an optional minus sign. For example, `int(file[7])` on a non-ASCII digit is a `NotADigit` error here.
- `ReleaseV1.RelPeriod`: `monthly == True` is modelled as a boolean flag. In Python `monthly=1` also gives a period of 1 and a truthy non-boolean such as `"yes"` gives 3; non-boolean arguments are not modelled.
- `remove_odd is True` is modelled as a boolean flag. A truthy non-boolean value, which Python would treat as false there, is not modelled.
- `byYear` and `byMonth` are generators. The model returns the whole sequence; for `byMonth`, that is the dates before the first `ValueError` together with the error. `byYear` cannot fail, because every year in its range is one `date()` accepts.
- `QRelease2` and `Quarter` are values (datatypes), not classes, since nothing updates them after construction. The constructor computes the four start dates before building the Quarters. Building a Quarter cannot fail, so the exception raised is the same.
- ReleaseV2.Window, ReleaseV2.WindowStartsFound and the per-field start lemmas cover periods of 1..12 and query years 2..9998. Negative periods and periods above 12 are modelled by `GetStartOfQuarter` and `NewQRelease2` but have no window lemma.
- ReleaseV2.CalendarWindow, ReleaseV2.CalendarAlwaysBuilds and ReleaseV2.CalendarAgrees cover query years 4..9998. The window reaches at most three years before the query year (the current release can be December of the previous year, and two periods back are up to two more years) and at most one year after it, so it stays within the range of a date.
- Docker calls, `get_repos` (which imports a `config` module that is not part of this model) and the missing-Dockerfile `FileNotFoundError` are left out.
- The mogrify, composite and convert shell commands, the size formatting, argument parsing and every `__repr__` are left out.
- The directory listing is an input sequence of names. `os.listdir` returns names in arbitrary order, so the lists are compared only after sorting.

## Findings

| source | as written | input that shows it | evidently intended | confidence | as-written member | corrected member |
|---|---|---|---|---|---|---|
| qrelease/QRelease2.py:19-20 | `before` snaps the raw query month minus two periods, with one ±12 correction | `QRelease2("2024-03-15", 6)`: 3 - 12 = -9 reduces to -12, the correction gives month 0, and `date(2023, 0, 1)` raises ValueError | the release two periods before the current one, here 2022.12 | not executed | ReleaseV2.HalfYearlyEarlyMonthsFail | ReleaseV2.CalendarAlwaysBuilds |
| qrelease/QRelease2.py:16-17 | `previous` snaps the raw query month minus one period, with one ±12 correction | `QRelease2("2024-03-15", 12)`: 3 - 12 = -9 reduces to -12, the correction gives month 0, and `date(2023, 0, 1)` raises ValueError | the release one period before the current one, here 2022.12 | not executed | ReleaseV2.YearlyAlwaysFails | ReleaseV2.CalendarAlwaysBuilds |
