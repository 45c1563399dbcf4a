# Activity tracker, social feed and time-block suggestions: a verified model

This project models the three pieces of logic in a personal scheduling and
habit-tracking prototype.

- **Activity tracker.** The tracker keeps an ordered list of activities and one
  session counter, `currentTime`. Start, pause and stop buttons change them, and
  so does an interval tick that adds one second whether or not anything is
  running. The page shows the running activity, the total committed time, the
  number of activities with time on them, and the current session as
  `HH:MM:SS`.
- **Social feed.** Each post has a like toggle that flips the viewer's like and
  moves the like count by one. Post cards show durations as `Hh Mm` or `Mm` and
  ages as `Just now`, `Nh ago` or `Nd ago`.
- **Suggestion panel.** "Generate" hands the page a fixed list of five time
  blocks. Accepting or rejecting a suggestion filters it out of the list by id.

Layout, one module per component plus two shared ones:

- `activity_tracker.dfy`: the `Activity` record and the list transitions
  `StartAll` and `PauseAll`. It also holds a value-level `Step`/`Run` over
  `TrackerState` for stating properties of whole sessions, the derived values,
  `formatTime`, and the class `Tracker`. `Tracker` holds the two state cells as
  fields, and its four handler methods are each proved to be the matching
  `Step`.
- `social_feed.dfy`: the `Post` record and `toggleLike`, with class `Feed` as
  its state cell. It also holds the feed's duration formatter and the
  relative-time formatter. The formatter takes the millisecond difference
  `now - timestamp` as a parameter.
- `time_block_suggestions.dfy`: the `TimeBlock` record, removal by id, and the
  generated list.
- `categories.dfy`: the colour and label tables. The tracker
  (`components/ActivityTracker.tsx:77-97`) and the feed
  (`components/SocialFeed.tsx:95-115`) declare the same two tables, so the model
  defines them once.
- `text.dfy`: the string building blocks the template strings use, which are
  `toString()` on non-negative integers and `padStart(2, '0')`. It also holds
  what the model needs to read that text back. `ValueOf` reads a numeral as a
  number. `Split` and `Join` on one separator character exist only for the
  readers; no component calls `split`.
- `arithmetic.dfy`: uniqueness of quotient and remainder, which the readers
  need.
- `wrappers.dfy`: `Option`.

Each of the three formatters has a reader: `ParseClock`, `ParseDuration` and
`ParseAge`. Each reader accepts only numerals as `toString()` and
`padStart(2, '0')` write them, with no superfluous leading zero. Each
formatter's own contract says what its output reads back as:

- the activity clock display (`ActivityTracker.FormatTime`) reads back as the
  seconds it was given;
- the feed duration (`SocialFeed.FormatTime`) reads back as the whole minutes,
  `seconds / 60`, with spare seconds dropped;
- the relative time (`FormatTimestamp`) reads back as its age bucket and count,
  `AgeOf` of the difference in milliseconds.

A converse lemma for each reader says that any text it accepts is the
formatter's output for what it reads: `ParseClockOnlyDisplay` gives the clock
display of the seconds, `ParseDurationOnlyDisplay` the feed duration of the
minutes times 60, and `ParseAgeOnlyText` the `AgeText` of the age.

The contract and the converse together pin each formatter's exact text. `ClockMinutes` is a different
kind of reader: it reads the fixed `HH:MM` strings of the generated suggestions,
and no formatter goes with it.

The model follows the code, which differs from an idealised timer and feed in
these ways:

- An unknown id is not reported as an error anywhere. Starting an unknown id
  deactivates every activity and still resets the counter. Pausing or stopping an
  unknown id leaves the list unchanged.
- `startTime` is not cleared when an activity stops being active. A start keeps
  every other activity's old `startTime`.
- Pause does not check that its target is active. Only the buttons do that.
- The tick runs unconditionally, not only while something is running.
- The category keys are `study-cs` and `study-econ`, as in the code.

## Model

| member | source | states |
|---|---|---|
| `ActivityTracker.StartAll` | components/ActivityTracker.tsx:41-48 | each activity is active exactly when its id is the target's; the target's start time becomes `now`; every other start time, and every id, name, category and duration, is kept |
| `ActivityTracker.PauseAll` | components/ActivityTracker.tsx:50-61 | every activity with the id gains exactly the elapsed seconds and becomes inactive, whether or not it was active; all other activities are identical; no duration falls |
| `ActivityTracker.Step` | components/ActivityTracker.tsx:26-75 | no transition (start, pause, stop, tick) adds, removes, reorders or renames an activity or lowers a duration |
| `ActivityTracker.Run` | components/ActivityTracker.tsx:41-75 | over any sequence of transitions, list length, id order, names and categories are preserved and durations never decrease |
| `ActivityTracker.StartLeavesOneActive` | components/ActivityTracker.tsx:42-46 | with unique ids, after a start at most one activity is active, whatever was active before |
| `ActivityTracker.StepInvariants` | components/ActivityTracker.tsx:41-75 | every transition preserves unique ids and "at most one active" |
| `ActivityTracker.RunInvariants` | components/ActivityTracker.tsx:41-75 | every run from a state with unique ids and at most one active keeps both |
| `ActivityTracker.FixtureRunInvariants` | components/ActivityTracker.tsx:18-22 | from the three initial activities, after any sequence of start/pause/stop/tick, at most one is active, and the three stay in place under their ids, names and categories |
| `ActivityTracker.RunTicks` | components/ActivityTracker.tsx:26-29 | `n` ticks add exactly `n` to the counter and change nothing else, whether or not anything is active |
| `ActivityTracker.TimedSession` | components/ActivityTracker.tsx:41-75 | start, `n` ticks, pause: the target's duration grows by exactly `n`, every other duration is unchanged, nothing is active and the counter stays `n`; with stop instead of pause the list is the same and the counter is 0 |
| `ActivityTracker.FirstActive` | components/ActivityTracker.tsx:99 | `find` returns nothing exactly when no activity is active, and otherwise the first active activity of the list (every earlier one is inactive) |
| `ActivityTracker.FirstActiveIsTheActive` | components/ActivityTracker.tsx:99 | when at most one activity is active, `find` returns that activity |
| `ActivityTracker.StartThenRunning` | components/ActivityTracker.tsx:41-48 | after starting a known id (ids unique) the running activity is the target with its new start time; after starting an unknown id nothing is running |
| `ActivityTracker.TotalTime` | components/ActivityTracker.tsx:100 | the sum of the durations, folded from the left as `reduce` does; what it promises is stated by `TotalTimeBounds`, `TotalOfSameDurations`, `TotalGrows`, `StartTickKeepTotal` and `PauseAddsToTotal` |
| `ActivityTracker.TotalTimeBounds` | components/ActivityTracker.tsx:100 | the total is at least every single duration, and 0 exactly when every duration is 0 |
| `ActivityTracker.TotalOfSameDurations` | components/ActivityTracker.tsx:100 | lists with the same durations position by position have the same total |
| `ActivityTracker.TotalGrows` | components/ActivityTracker.tsx:100 | when no duration falls, the total does not fall |
| `ActivityTracker.StartTickKeepTotal` | components/ActivityTracker.tsx:26-48 | starting and ticking leave the total unchanged |
| `ActivityTracker.PauseAddsToTotal` | components/ActivityTracker.tsx:50-61 | pausing adds the counter to the total once per activity carrying the id |
| `ActivityTracker.PauseCommitsSession` | components/ActivityTracker.tsx:63-75 | pausing or stopping an id that occurs once adds exactly the counter to the total |
| `ActivityTracker.CountUniqueId` | components/ActivityTracker.tsx:18-22 | with unique ids, an id present in the list occurs exactly once |
| `ActivityTracker.CompletedCount` | components/ActivityTracker.tsx:124 | the completed count is at most the list length; it is 0 exactly when every duration is 0, and the full length exactly when every duration is positive |
| `ActivityTracker.CompletedCountIsPositions` | components/ActivityTracker.tsx:124 | the completed count is exactly the number of positions whose activity has a positive duration |
| `ActivityTracker.CompletedGrows` | components/ActivityTracker.tsx:124 | when no duration falls, the completed count does not fall |
| `ActivityTracker.Hms` | components/ActivityTracker.tsx:34-37 | hours·3600 + minutes·60 + seconds equals the input, with minutes and seconds below 60; hours are below 100 exactly when the input is below 360000 |
| `ActivityTracker.HmsUnique` | components/ActivityTracker.tsx:35-37 | hours, minutes below 60 and seconds below 60 are exactly what the floor division and remainder recover from their total |
| `ActivityTracker.FormatTime` | components/ActivityTracker.tsx:34-39 | the display reads back as exactly the input seconds, as hours padded to at least two digits and two-digit minutes and seconds, all separated by colons; it is exactly 8 long when the input is below 360000 |
| `ActivityTracker.ParseClockOnlyDisplay` | components/ActivityTracker.tsx:34-39 | the clock reader accepts no text but the display: a text it reads as `n` seconds is `FormatTime(n)`, so past 99 hours the hours are written unpadded (`100:00:00`) |
| `ActivityTracker.FormatTimeInjective` | components/ActivityTracker.tsx:34-39 | different inputs never give the same display |
| `ActivityTracker.FormatTimeExample` | components/ActivityTracker.tsx:34-39 | 3661 seconds shows `01:01:01` |
| `ActivityTracker.FormatTimeZero` | components/ActivityTracker.tsx:34-39 | 0 seconds shows `00:00:00`, the text the idle session card prints |
| `ActivityTracker.SessionDisplay` | components/ActivityTracker.tsx:136 | the session card reads back as the counter while an activity is active and as 0 otherwise; it is 8 long while the counter is below 360000 |
| `ActivityTracker.Tracker.ActiveActivity` | components/ActivityTracker.tsx:99 | while the handlers' invariant holds, `activeActivity` is the one running activity: it is that activity whenever one is active, and nothing exactly when none is |
| `ActivityTracker.Tracker.constructor` | components/ActivityTracker.tsx:18-23 | the tracker begins with the three fixture activities, counter 0, ids unique and nothing active |
| `ActivityTracker.Tracker.StartActivity` | components/ActivityTracker.tsx:41-48 | the list becomes `StartAll` of the old list and the counter 0; the class invariant is preserved |
| `ActivityTracker.Tracker.PauseActivity` | components/ActivityTracker.tsx:50-61 | the list becomes `PauseAll` of the old list with the old counter; the counter is unchanged; the class invariant is preserved |
| `ActivityTracker.Tracker.StopActivity` | components/ActivityTracker.tsx:63-75 | the list becomes the same `PauseAll` as for pause and the counter 0; the class invariant is preserved |
| `ActivityTracker.Tracker.Tick` | components/ActivityTracker.tsx:26-32 | the counter grows by exactly one and the list is unchanged |
| `Categories.CategoryColor` | components/ActivityTracker.tsx:77-86 | a known category gets its table colour; the result is `bg-gray-500` exactly when the category is not one of the five keys |
| `Categories.CategoryLabel` | components/ActivityTracker.tsx:88-97 | a known category gets its table label; any other category is shown as itself |
| `Text.Decimal` | components/ActivityTracker.tsx:38 | `toString()` of a non-negative integer is a non-empty digit string without a leading zero that reads back as the number; it has one digit exactly below 10 and at most two exactly below 100 |
| `Text.PadTwo` | components/ActivityTracker.tsx:38 | `padStart(2, '0')` gives length max(2, input length) and does not change the value of a numeral |
| `Text.TwoDigits` | components/ActivityTracker.tsx:38 | a padded numeral reads back as the number and is exactly two long when the number is below 100; from 10 on it is the plain numeral, and below 10 a single zero is put in front |
| `Text.CanonicalIsDecimal` | components/ActivityTracker.tsx:38 | a numeral without a superfluous leading zero is exactly `toString()` of its value |
| `SocialFeed.Toggled` | components/SocialFeed.tsx:119-124 | the like flag flips, the likes from other viewers (likes minus own like) are unchanged, and no other field changes |
| `SocialFeed.WithLikeToggled` | components/SocialFeed.tsx:117-128 | same length, ids and order; every post with the id becomes its toggled copy, with user, activity, timestamp and comments kept; its like flag flips and its likes go down by one if it was liked and up by one if not; other posts are identical; likes minus own like is invariant; an absent id leaves the list unchanged |
| `SocialFeed.ToggleTwice` | components/SocialFeed.tsx:117-128 | toggling the same id twice restores the original list |
| `SocialFeed.Feed.constructor` | components/SocialFeed.tsx:27-70 | the feed begins with the three fixture posts, dated 2, 4 and 6 hours before `now` |
| `SocialFeed.Feed.ToggleLike` | components/SocialFeed.tsx:117-128 | the post list becomes `WithLikeToggled` of the old list |
| `SocialFeed.FormatTime` | components/SocialFeed.tsx:72-79 | the text reads back as exactly the whole minutes of the input, spare seconds dropped; it ends in `m` and contains `h` exactly when there is at least one whole hour |
| `SocialFeed.ParseDurationOnlyDisplay` | components/SocialFeed.tsx:72-79 | the duration reader accepts no text but the feed's: a text it reads as `n` minutes is the text for `60·n` seconds, so numbers are never zero-padded (`1h 5m`, `5m`) |
| `SocialFeed.AgeOf` | components/SocialFeed.tsx:81-93 | `Just now` exactly below one hour, future dates included; `{h}h ago` exactly from 1 to under 24 hours, with h the floor of the hours; otherwise `{d}d ago` with d ≥ 1 the floor of the days |
| `SocialFeed.FormatTimestamp` | components/SocialFeed.tsx:81-93 | the text reads back as the age bucket of the millisecond difference |
| `SocialFeed.ParseAgeOnlyText` | components/SocialFeed.tsx:85-92 | the age reader accepts no text but the three forms the code prints, with the count unpadded (`2h ago`) |
| `SocialFeed.AgeTextRoundTrip` | components/SocialFeed.tsx:85-92 | each of the three texts reads back as its bucket and count, so different ages never share a text |
| `SocialFeed.AgeMonotone` | components/SocialFeed.tsx:83-92 | an older post never shows a younger age |
| `TimeBlockSuggestions.Remaining` | components/TimeBlockSuggestions.tsx:98-108 | accept and reject both return this filter; no kept block has the id; the length falls by the number of occurrences of the id; an absent id returns the list unchanged |
| `TimeBlockSuggestions.RemainingSubMultiset` | components/TimeBlockSuggestions.tsx:102 | the filter's result is a sub-multiset of its input: no block is duplicated or invented |
| `TimeBlockSuggestions.RemainingMembers` | components/TimeBlockSuggestions.tsx:102 | a block is kept exactly when it was in the list and its id differs, so kept blocks are unmodified |
| `TimeBlockSuggestions.RejectSuggestion` | components/TimeBlockSuggestions.tsx:105-108 | the page gets back exactly the suggestions whose id differs, one fewer per occurrence of the id |
| `TimeBlockSuggestions.AcceptSuggestion` | components/TimeBlockSuggestions.tsx:98-103 | accepting changes the list exactly as rejecting does: the suggestion is only dropped |
| `TimeBlockSuggestions.RemainingAppend` | components/TimeBlockSuggestions.tsx:102 | the filter distributes over concatenation, so kept blocks stay in their original order |
| `TimeBlockSuggestions.RemainingIdempotent` | components/TimeBlockSuggestions.tsx:107 | removing an id twice is the same as removing it once |
| `TimeBlockSuggestions.UniqueIdCount` | components/TimeBlockSuggestions.tsx:102 | with unique ids, an id occurs at most once, and exactly once when present, so a removal drops at most one block |
| `TimeBlockSuggestions.GeneratedSuggestions` | components/TimeBlockSuggestions.tsx:41-92 | the five fixed blocks, field for field: ids, categories, titles, minute durations, `HH:MM` start and end times, descriptions and priorities |
| `TimeBlockSuggestions.GeneratedBlock` | components/TimeBlockSuggestions.tsx:41-92 | the block at position i has id i+1, and its `HH:MM` start and end read as minutes since midnight with the end after the start by exactly its duration |
| `TimeBlockSuggestions.GeneratedSuggestionsConsistent` | components/TimeBlockSuggestions.tsx:41-92 | the generated list has five blocks with distinct ids `1` to `5`; each block's minute duration equals end minus start |

## Left out

- Rendering: JSX, styling classes and icons carry no logic. So does the
  suggestion panel's own category configuration, including its `Personal Time`
  label.
- Interval scheduling and cleanup (`setInterval`/`clearInterval`): only the
  tick's effect on the counter is modelled. The tick is an operation that can
  happen at any point.
- Clocks and locale: `new Date()` at a start becomes the parameter `now`, and
  `toLocaleTimeString` is not modelled. In the feed, `Date.now()` for the
  fixture becomes a constructor parameter, and `formatTimestamp` takes the
  difference `now - timestamp` in milliseconds.
- The artificial 2000 ms delay of "Generate Suggestions" and its `isGenerating`
  flag are not modelled. So are `console.log` on accept and `alert` on share.
- The suggestion list's state cell lives in `app/page.tsx`. Accept and reject
  are modelled as the functions `AcceptSuggestion` and `RejectSuggestion`, which
  return the list handed to the page's `onSuggestionsChange` callback. Both are `Remaining`, so the two give the same
  list by definition.
- `components/CalendarView.tsx`, `components/GoogleCalendarAuth.tsx` and
  `app/page.tsx` are not part of this model. They are date-library calls, a
  fake loading flag and tab wiring.
- JavaScript numbers are modelled as unbounded integers. Durations, counters and
  seconds are non-negative integers throughout the source. Loss of precision
  beyond 2^53 and fractional inputs are not modelled.
- `Text.Decimal` covers `toString()` of non-negative integers only. The
  formatters never receive negative or fractional numbers.
- `Categories.CategoryLabel`, `Categories.CategoryColor`: a category naming an
  inherited object property (such as `toString`) would find that property in
  the source's object literal. The model treats such a category as unknown.
- `ActivityTracker.Tracker.PauseActivity`: the handler reads `currentTime` from
  the render that created it. Re-rendering after every tick makes that the
  current value, and the model uses it.
