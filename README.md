# Mergington High School activity registry

The service keeps an in-memory table, `activities`, that maps activity names
to records with a description, a schedule, a maximum participant count, an
ordered participant list of emails, and a category. The process starts with
eight seeded activities. `GET /activities` returns the table as it is.
`POST /activities/{activity_name}/signup?email=...` answers 404 "Activity
not found" for an unknown name. For a known name it appends the email to that
activity's participant list and answers "Signed up {email} for {activity_name}".

The model has two modules:

- `App` (`app.dfy`) holds the `Activity` record, the seed table, and
  `SignupStep`, a pure function giving the full effect of one signup (the
  answer and the new table). It also holds the `Registry` class. Its
  `activities` map field plays the role of the module-level dictionary.
  `SignupForActivity` updates that field in place and is proved equal to
  `SignupStep`.
- `AppProperties` (`app_properties.dfy`) holds lemmas about `SignupStep` and
  the seed. They cover occurrence counts, the confirmation message, capacity,
  duplicates, signups to several activities, and the seeded contents.

The model follows `src/app.py` as written. The tests in `tests/test_app.py`
expect things this code does not do: a 400 answer to a duplicate signup, a
`DELETE .../unregister` endpoint, and activities that are not seeded ("Tennis
Club", "Digital Art", "Science Club", "Theater Club"). The code does no
duplicate check and no capacity check. `DuplicateSignupAccepted`,
`SignupTwice`, `RepeatBreaksUniqueness`, `ChessClubRepeat` and
`CapacityNotEnforced` state what it does instead.

## Model

| member | source | states |
|---|---|---|
| `App.StatusCode` | src/app.py:97-98 | a refusal is reported as 404 and a confirmation as 200, and each code means exactly that outcome |
| `App.Seed` | src/app.py:23-80 | the starting table contains "Chess Club" and "Programming Class"; Chess Club lists michael@ and daniel@mergington.edu in that order; no seeded activity is over capacity |
| `App.SignupMessage` | src/app.py:105 | the confirmation is "Signed up ", then the email, then " for ", then the activity name, in that order and with nothing else |
| `App.SignupStep` | src/app.py:93-105 | an unknown name gives NotFound("Activity not found") and leaves the table unchanged; a known name gives Ok with the confirmation; the key set and every other activity stay the same; the named activity's participants become the old list followed by the email (length plus one); its description, schedule, maximum and category are unchanged |
| `App.Registry.constructor` | src/app.py:23-80 | the table starts as the seed, and the invariant holds that its names are exactly the seed's names |
| `App.Registry.GetActivities` | src/app.py:88-90 | returns the table as it is; it modifies nothing |
| `App.Registry.SignupForActivity` | src/app.py:93-105 | the in-place update gives the answer and the new table that `SignupStep` gives for the old table; it keeps the invariant that the names are the seeded ones; NotFound exactly when the name is unknown, and then nothing changes |
| `AppProperties.OccurrencesAppend` | src/app.py:104 | appending an email raises that email's count in the list by one and leaves every other email's count unchanged |
| `AppProperties.OccurrencesPositive` | src/app.py:104 | helper fact about the count used for the appended list: an email's count is positive exactly when the list contains it |
| `AppProperties.OccurrencesIsMultiplicity` | src/app.py:104 | helper fact about the count used for the appended list: an email's count equals its multiplicity in the multiset of the list |
| `AppProperties.MessageMentions` | src/app.py:105 | the confirmation contains the email and the activity name as substrings |
| `AppProperties.DuplicateSignupAccepted` | src/app.py:101-104 | signup for a known activity always succeeds, even for an email already listed; afterwards the list contains the email, its multiset is the old multiset plus exactly one copy of the email, and the email's count is one higher |
| `AppProperties.SignupTwice` | src/app.py:101-105 | two identical signups both succeed and append the email twice, raising its count by two |
| `AppProperties.CapacityNotEnforced` | src/app.py:93-105 | an activity at or over its maximum still accepts a signup and then holds more participants than its maximum |
| `AppProperties.RepeatBreaksUniqueness` | src/app.py:104 | signing up an email that is already listed leaves a participant list with a repeated email |
| `AppProperties.SignupInTwoActivities` | src/app.py:97-105 | one email signed up for two different known activities is appended to both lists |
| `AppProperties.SeedHasEightActivities` | src/app.py:23-80 | the seed holds eight activities, so its eight names are pairwise distinct |
| `AppProperties.SeedHasNoDuplicates` | src/app.py:23-80 | no seeded participant list repeats an email |
| `AppProperties.FirstListedAgain` | src/app.py:101-104 | illustration, a special case of `DuplicateSignupAccepted`: an activity that lists exactly two different emails x then y and gets x again lists x, y, x, with x counted twice |
| `AppProperties.ChessClubRepeat` | src/app.py:24-105 | illustration on the seed data: from the seed, signing michael@mergington.edu up for Chess Club succeeds; the list becomes michael, daniel, michael, with michael listed twice |

## Left out

- The FastAPI application object, the static-files mount (src/app.py:14-20) and the `root` redirect to `/static/index.html` (src/app.py:83-85). They are framework wiring with no logic of their own.
- HTTP transport is not modelled: URL decoding of the activity name, reading `email` from the query string, and JSON serialisation. Status codes appear only as result variants and `StatusCode`.
- Python dictionary insertion order, which fixes the key order of the JSON answer, is not modelled. Dafny's `map` is unordered. No operation adds or removes keys, so this order never changes.
- Aliasing is not modelled. In Python, `get_activities` returns the live dictionary object and signup appends to a list shared with it. The model returns the table as a value. Over HTTP the caller only ever gets a serialised copy.
- Concurrency is not modelled. Handlers share the dictionary with no lock; each call is modelled as one atomic step.
- Unregistering, duplicate-signup rejection and capacity enforcement are not in `src/app.py`, so they are not modelled. The tests expect the first two.
- `src/static/app.js` (the browser front end: rendering, "spots left" display and category filter) is not part of this model.
