# Habit tracker: state and render model

A Dafny model of the browser habit tracker in `scripts/app.js`. The tracker
keeps a list of habits. Each habit has an id, a name, a target day count, an
icon and an ordered list of logged days. One habit is selected at a time.
The model covers:

- the habit store: the `habbits` and `globalActiveHabbitId` globals, plus the
  stored copy in `localStorage`;
- the handlers that change the store: `addHabbit`, `addDay`, `removeDay`,
  `rerenderGlobal` and `loadData` / `saveData`;
- the form validator `validateAndGetFormData`;
- the render pass (`rerenderMenu`, `rerenderHead`, `rerenderDays`), with the
  DOM regions replaced by plain data.

Files:

- `wrappers.dfy`: `Option`, which stands for `undefined`/`null`.
- `habits.dfy` (module `Habits`): the `Habbit` and `Day` values, and the pure
  parts of the handlers. These are the `find` lookup, the `reduce` for the
  largest id, the `filter` that drops a day, and the `map`s that build fresh
  habit lists.
- `forms.dfy` (module `Forms`): the validator, a method with two loops like
  the source's.
- `view.dfy` (module `View`): the menu entries, the day rows, the progress
  number, and the lemmas about menu reconciliation.
- `tracker.dfy` (module `Tracker`): two classes. `Page` holds the rendered
  regions. `App` holds the globals, the storage and a `page`. Its methods are
  the source's functions and update fields in place. `RunScenario` is a
  client that creates a habit, logs a day and deletes it. It is checked
  against the methods' contracts alone, one stage per method
  (`ScenarioCreate`, `ScenarioLog`, `ScenarioRemove`).

Modelling decisions:

- The source spells the entity "habbit", and the model keeps that spelling.
- A form is a `map<string, string>`. Every required field is assumed to be
  a control of the form. A field that is not a key is a control that
  `FormData.get` returns `null` for. The validator gets the set of fields
  that carry the `error` class and returns the new set.
- `target` stays the raw text from the form. The header divides by it, which
  in JavaScript converts it to a number. The model does that conversion only
  for plain decimal digits (`TargetValue`).
- The progress is the source's clamp in exact real arithmetic (`Progress`).
  It is shown through `RoundedPercent`, which rounds halves up as
  `toFixed(0)` does, and stays within 1/2 of the exact value.
- The stored value is modelled after `JSON.parse`: an array of habits or
  anything else. The model assumes every element of a stored array is a
  well-formed habit.
- Start-up selects the first habit if there is one.
- The model keeps these behaviours of the code:
  - An unknown habit id or an out-of-range day index is a silent no-op, not
    an error.
  - The first id given out is 1 (`max(0, ids) + 1`).
  - The clamp to 100 is applied before rounding.
  - `removeDay` saves even when nothing changed.
  - `addDay` with nothing selected still saves and does not re-render.

## Model

| member | source | states |
|---|---|---|
| `Habits.FirstWithId` | scripts/app.js:119-121 | the position found is the first habit the id matches, and no earlier habit matches it |
| `Habits.Find` | scripts/app.js:119-121 | `find` gives nothing exactly when no habit has the id; otherwise the first habit of the collection with that id |
| `Habits.FindInExtension` | scripts/app.js:186-192 | appending habits (the `push`) never changes what a lookup that already succeeds finds, so the selection stays valid |
| `Habits.MaxIdFromIsMaximum` | scripts/app.js:185 | the `reduce` returns at least its seed, at least every id, and is either the seed or one of the ids: the maximum |
| `Habits.NextId` | scripts/app.js:185-187 | the new id is at least 1, greater than every existing id, and 1 or one more than an existing id: `max(0, ids) + 1` |
| `Habits.AddedHabbitIsFresh` | scripts/app.js:185-192 | appending the habit with the next id keeps ids distinct, and looking up that id finds the new habit |
| `Habits.DropPositionIsSplice` | scripts/app.js:161 | `filter((_, i) => i != index)` removes exactly position `index` when it is in range and nothing otherwise |
| `Habits.DropPositionEffect` | scripts/app.js:161 | in range the length drops by one, earlier days keep their positions and later days move down by one; out of range the days are unchanged |
| `Habits.DropAppended` | scripts/app.js:140-165 | removing the position just appended gives back the original days |
| `Habits.DayAddedEffect` | scripts/app.js:140-148 | `addDay` appends exactly one `{comment}` at the end of the active habit's days, keeps its other fields and earlier days, leaves every other habit equal, and changes nothing when no habit has the active id |
| `Habits.DayRemovedEffect` | scripts/app.js:157-165 | `removeDay` splices exactly `index` out of the active habit's days when in range, and otherwise (or for other habits) leaves the habit equal |
| `Habits.AddThenRemoveLast` | scripts/app.js:140-165 | adding a day to the selected habit and then removing the day at its last index restores the whole collection |
| `Habits.DayOperationsKeepIds` | scripts/app.js:140-165 | adding or removing a day changes no id, so the same ids are found before and after |
| `Habits.DayOperationsKeepIdsDistinct` | scripts/app.js:140-165 | neither day operation can make two habits share an id: uniqueness is kept by construction |
| `Habits.MaxIdFrom` | scripts/app.js:185 | the `reduce` over ids; `MaxIdFromIsMaximum` proves it returns the maximum of the seed and all ids |
| `Habits.DropPosition` | scripts/app.js:161 | the index `filter`; `DropPositionIsSplice` and `DropPositionEffect` prove it removes exactly the in-range position |
| `Habits.WithDayAdded` | scripts/app.js:140-148 | `addDay`'s `map`/`concat`; `DayAddedEffect` proves it appends one day to the active habit only |
| `Habits.WithDayRemoved` | scripts/app.js:157-165 | `removeDay`'s `map`/`filter`; `DayRemovedEffect` proves it splices the index out of the active habit only |
| `Forms.Get` | scripts/app.js:50 | `formData.get(field)`: the field's text, or `null` when the form holds none; `ValidateAndGetFormData` states what the validator does with it |
| `Forms.ValidateAndGetFormData` | scripts/app.js:46-67 | returns `undefined` exactly when some required field is missing or empty; otherwise a record of exactly the required fields with the form's values; afterwards the `error` class is on exactly the empty required fields, and other fields keep theirs |
| `View.FirstEntry` | scripts/app.js:73 | the `querySelector` on the id attribute finds the first button bound to that id, or none |
| `View.ReconcileStep` | scripts/app.js:73-90 | one iteration of the menu loop; `StepKeepsEntries` proves what it may change |
| `View.Reconciled` | scripts/app.js:72-91 | the whole menu loop; the `Reconciled…` lemmas below prove its properties |
| `View.StepKeepsEntries` | scripts/app.js:73-90 | one loop iteration appends at most one button (only for a new id), never changes an existing button's id, icon or name, and keeps one button per id |
| `View.ReconciledKeepsEntries` | scripts/app.js:71-92 | existing buttons are never removed or reordered: the old menu is a prefix of the new one up to the markers |
| `View.ReconciledIds` | scripts/app.js:71-92 | after `rerenderMenu` the button ids are the old ones plus every habit id |
| `View.ReconciledDistinct` | scripts/app.js:71-92 | with at most one button per id before, there is still at most one after, so each habit has exactly one |
| `View.ReconciledAddsNothing` | scripts/app.js:71-92 | when every habit already has a button, no button is added |
| `View.ReconciledMarkers` | scripts/app.js:71-92 | the active marker is set on exactly the habit buttons whose id is the active id; a button no habit owns is left as it was |
| `View.SettledIsFixed` | scripts/app.js:71-92 | a menu with one correctly marked button per habit is left unchanged |
| `View.ReconciledIdempotent` | scripts/app.js:71-92 | re-running `rerenderMenu` on unchanged state changes nothing |
| `View.ReconciledFromEmpty` | scripts/app.js:71-92 | on an empty menu with distinct ids, one button per habit is created in creation order, with the marker only on the active one |
| `View.ReconciledAfterAppend` | scripts/app.js:71-92 | the menu shown before a habit is added, re-rendered with the new habit active, equals the menu built from scratch |
| `View.Progress` | scripts/app.js:96-97 | the progress lies in 0..100, is 100 exactly when the days reach the target, and equals `days / target * 100` up to the target |
| `View.RoundedPercent` | scripts/app.js:98-99 | the shown whole number is at most 100 and within one half of the progress |
| `View.TargetValue` | scripts/app.js:97 | the number `target` converts to in the division, for decimal-digit text; `HeadProgress` states when a number results |
| `View.HeadProgress` | scripts/app.js:94-99 | the header and bar show a number exactly when the target is a positive decimal number; the number is at most 100 and within one half of `Progress` of the day count |
| `View.DayRows` | scripts/app.js:104-114 | the rebuilt day list; `DeleteButtonRemovesItsDay` and `DayRowsAfterAdd` prove its numbering and delete indexes |
| `View.DeleteButtonRemovesItsDay` | scripts/app.js:104-112 | row `k` shows day `k + 1` and its comment, and its delete index removes exactly day `k`, leaving one row fewer |
| `View.DayRowsAfterAdd` | scripts/app.js:103-115 | logging a day adds exactly one row, numbered `length + 1`, below the unchanged others |
| `Tracker.Page.constructor` | scripts/app.js:8-19 | the page starts with no menu buttons, no day rows and no flagged fields |
| `Tracker.App.constructor` | scripts/app.js:201-204 | start-up adopts the stored array (or keeps an empty collection), selects and renders the first habit if there is one, and otherwise selects nothing |
| `Tracker.App.LoadData` | scripts/app.js:23-29 | the stored value replaces the habits only when it is an array |
| `Tracker.App.SaveData` | scripts/app.js:31-33 | the stored value becomes the whole current collection |
| `Tracker.App.RerenderMenu` | scripts/app.js:71-92 | the loop leaves the menu equal to `Reconciled` of the old menu, the habits and the active id |
| `Tracker.App.RerenderHead` | scripts/app.js:94-100 | the header shows the habit's name and its rounded progress |
| `Tracker.App.RerenderDays` | scripts/app.js:102-116 | the list is rebuilt as one row per day in index order, and the next-day label is `days.length + 1` |
| `Tracker.App.RerenderGlobal` | scripts/app.js:118-130 | an unknown id changes neither the selection nor the page; a known id becomes the selection and the menu, header and list show that habit |
| `Tracker.App.AddDay` | scripts/app.js:133-153 | an empty comment only flags the field and changes no habit, no storage, no selection and no page region; otherwise the day is appended to the selected habit and the collection is saved; with a selection the menu is reconciled and the selected habit is shown, without one no region changes |
| `Tracker.App.RemoveDay` | scripts/app.js:155-168 | the day at `index` is filtered out of the selected habit and the collection is saved; with a selection the menu is reconciled and the selected habit is shown, without one no region changes |
| `Tracker.App.AddHabbit` | scripts/app.js:179-198 | any empty field flags exactly the empty fields and changes no habit, no storage, no selection and no page region; otherwise a habit with the next id, the form's values and no days is appended last, ids stay distinct, it is saved, selected and shown |
| `Tracker.App.PushHabbit` | scripts/app.js:185-197 | after validation the new habit with the next id is appended last, saved, selected and rendered, and the selection invariant holds |

## Left out

- The DOM calls: `querySelector`, `createElement`, `innerHTML`, `classList`,
  `setAttribute` and styles. Plain data stands in for them: menu entries, day
  rows, the header fields and a set of flagged fields.
- The inline handler markup in the day rows. Only the index it carries is
  modelled (`DayRow.deleteIndex`). The menu click handler appears only as
  the id each button is bound to.
- `localStorage` and JSON. The storage holds the already-parsed value.
  `JSON.parse` throwing on text that is not JSON is not modelled.
- Malformed elements of a stored array. The source adopts any array, and an
  element without `days` makes a later handler throw (`habbit.days.concat`
  at `scripts/app.js:144`). `JsonArray` holds well-formed habits only, so the
  model does not capture that failure.
- A required field with no control in the form. The source throws a
  `TypeError` at `form[field].classList` (`scripts/app.js:51`). The model
  treats every required name as a control, so a missing key means a control
  whose value is `null`.
- Navigation: `document.location.replace` and the `#id` fragment. The model
  has no location.
- `togglePopup`, `setIcon`, `resetForm` and `event.preventDefault`. They
  change only UI state the model does not have. Form contents are inputs.
- The crash at start-up when there are no habits (`habbits[0].id`). The
  model selects the first habit if there is one.
- Floating point: division, `toFixed(0)` on binary fractions, `NaN` and
  `Infinity`. Progress uses exact arithmetic.
- `View.HeadProgress`: gives no number when the target is not a string of
  decimal digits, or when it is 0. JavaScript's other number formats
  (spaces, `1e2`, `0x…`, fractions) and the `NaN %` / `100 %` the source
  shows for a zero target are not modelled.
- Removing menu buttons. The source never deletes a habit, so
  reconciliation never removes a button, and neither does the model.
