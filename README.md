# chipsview in Dafny

A model of the core of the chipsview Android component: a text field that
shows "chips" (tokens for people, tags and the like) in front of a text
buffer. It models three source files.

- **Chip** (`chip.dfy`, module `ChipEntity`). A chip has an immutable key,
  payload, label and indelible flag, plus one mutable selection flag.
  - The label falls back to the payload's display string.
  - Labels are Java strings, modelled as sequences of UTF-16 code units
    (`JavaString`). A character outside the Basic Multilingual Plane is a
    surrogate pair and counts twice.
  - A label longer than 30 code units is cut to its first 30 code units
    and followed by `"..."`. The cut can split a surrogate pair.
  - An indelible chip ignores every request to change its selection.
  - Two chips are equal when their payloads are.
- **Row layout engine** (`layout.dfy`, module `VerticalLayout`). Chips are
  packed greedily, in order, into rows.
  - A chip opens a new row only when the running sum plus its measured
    width exceeds the width. The right margin is left out of that test but
    is added to the sum.
  - A row can therefore be wider than the container: by the right margins
    of its chips, or by a single chip wider than the container, which gets
    a row of its own.
  - When less than 15% of the width is left after the last chip, one more
    row is reserved for the text and the margin is 0.
  - A container that has not been measured (width 0) gives no answer.
  - The engine is a specification function (`Pack`, `Layout`).
  - The loop in `ChipsVerticalLinearLayout.OnChipsChanged` is proved to
    compute it.
  - The engine is also proved to produce exactly the rows described by an
    independent row-by-row greedy rule (`GreedyRows`).
- **Chips field** (`chipsview.dfy`, module `ChipsInput`). The field keeps
  an insertion-ordered map from keys to chips (a `LinkedHashMap` in the
  source). Here it is a key sequence `keys` plus a map `chips`.
  - The field also has a text buffer with its focus, the leading margin of
    the text's first line, a log of layout runs and a log of added/deleted
    notifications.
  - The leading margin (`LeadingMargin`) is the indent of the span that
    the last successful layout run created, and whether that span is
    attached to the text now in the buffer. Replacing the text with plain
    text detaches it.
  - It models adding (two overloads), clearing and pruning chips.
  - It models the select-then-delete interaction on a chip, the focus and
    click handlers, and backspace interception on an empty buffer.
  - Every operation preserves `Valid()`:
    - the keys are distinct and are exactly the map's keys;
    - every chip sits under its own key;
    - an indelible chip is never selected;
    - at most one chip is selected.

`option.dfy` holds the `Option` type the other modules share.

Measuring a chip's view is a function `measure` from the chip's label to
its measured width and right margin. The payload's display string is a
function `displayString`. Both are fixed when the field is created. The
container's width is assigned by the platform (`SetWidth`).

## Model

| member | source | states |
|---|---|---|
| ChipEntity.TruncateLabelShape | chipsview/src/main/java/com/discord/chipsview/Chip.java:61-63 | A label of at most 30 code units is stored unchanged; a longer one is stored as its first 30 code units followed by "...", so a stored label never exceeds 33 code units |
| ChipEntity.TruncateLongLabel | chipsview/src/main/java/com/discord/chipsview/Chip.java:61-63 | A 45-code-unit label is stored as its first 30 code units and "..." |
| ChipEntity.SixteenFacesLabel | chipsview/src/main/java/com/discord/chipsview/Chip.java:61-63 | Sixteen characters outside the Basic Multilingual Plane are 32 code units, so the label is cut and keeps fifteen of them |
| ChipEntity.CutSplitsSurrogatePair | chipsview/src/main/java/com/discord/chipsview/Chip.java:61-63 | Twenty-nine letters and one character outside the Basic Multilingual Plane are 31 code units; the cut keeps the high half of the surrogate pair alone before "..." |
| ChipEntity.Chip.constructor | chipsview/src/main/java/com/discord/chipsview/Chip.java:48-64 | A new chip keeps the given key, payload and indelible flag, takes the payload's display string when no label is given, stores the label cut to 30 code units as TruncateLabelShape says, and starts unselected |
| ChipEntity.Chip.SetSelected | chipsview/src/main/java/com/discord/chipsview/Chip.java:131-136 | An indelible chip keeps its flag (so it is never selected); any other chip takes the requested value |
| ChipEntity.ChipEqualityByPayload | chipsview/src/main/java/com/discord/chipsview/Chip.java:147-154 | Chip equality holds exactly when the payloads are equal, and is reflexive, symmetric and transitive |
| VerticalLayout.LayoutShape | chipsview/src/main/java/com/discord/chipsview/ChipsVerticalLinearLayout.java:45-76 | No answer exactly when the width is 0; otherwise the rows joined give back the chips in order, the answer's row is the last row and at most the number of chips plus 1, its margin is the space that row takes, at least 15% of the width is left for the text, and the rows are the packing's exactly when the chips leave at least 15% (otherwise one more row is reserved) |
| VerticalLayout.PackConcat | chipsview/src/main/java/com/discord/chipsview/ChipsVerticalLinearLayout.java:54-67 | The packing loop places every chip once and in input order: the rows joined are the input |
| VerticalLayout.PackWidthSum | chipsview/src/main/java/com/discord/chipsview/ChipsVerticalLinearLayout.java:59-65 | The running sum equals the measured widths plus right margins of the chips on the current row |
| VerticalLayout.PackRowBound | chipsview/src/main/java/com/discord/chipsview/ChipsVerticalLinearLayout.java:50-63 | The row counter never exceeds the number of chips, since only a chip opens a row |
| VerticalLayout.PackIsGreedy | chipsview/src/main/java/com/discord/chipsview/ChipsVerticalLinearLayout.java:58-65 | The rows built satisfy the greedy rule: each chip on a row passed the wrap test against what precedes it on that row, and each later row is opened by a chip that failed it against the whole previous row |
| VerticalLayout.GreedyIsPack | chipsview/src/main/java/com/discord/chipsview/ChipsVerticalLinearLayout.java:58-65 | Any rows satisfying the greedy rule and holding the chips in order are the rows the loop builds |
| VerticalLayout.PackIffGreedy | chipsview/src/main/java/com/discord/chipsview/ChipsVerticalLinearLayout.java:54-67 | The loop's rows are exactly the one greedy split of the chips (both directions) |
| VerticalLayout.EmptyLayout | chipsview/src/main/java/com/discord/chipsview/ChipsVerticalLinearLayout.java:49-76 | No chips on a measured container: one empty row, row 0, margin 0 |
| VerticalLayout.ThreeFortiesLayout | chipsview/src/main/java/com/discord/chipsview/ChipsVerticalLinearLayout.java:54-76 | Width 100 and three chips 40 wide: rows [40,40] and [40], row 1, margin 40 |
| VerticalLayout.ExactFitLayout | chipsview/src/main/java/com/discord/chipsview/ChipsVerticalLinearLayout.java:59-74 | A chip that fills the row exactly stays on it; with nothing left, the text gets a reserved row and margin 0 |
| VerticalLayout.OversizedFirstChipLayout | chipsview/src/main/java/com/discord/chipsview/ChipsVerticalLinearLayout.java:59-63 | A first chip wider than the container opens row 1 and leaves row 0 empty |
| VerticalLayout.ReservedRowLayout | chipsview/src/main/java/com/discord/chipsview/ChipsVerticalLinearLayout.java:70-74 | 90 of 100 used leaves less than 15%: one more row, margin 0 |
| VerticalLayout.RightMarginOverflowLayout | chipsview/src/main/java/com/discord/chipsview/ChipsVerticalLinearLayout.java:59-65 | The wrap test ignores the incoming chip's right margin, so a row can take more than the width (110 of 100) |
| VerticalLayout.ChipsVerticalLinearLayout.constructor | chipsview/src/main/java/com/discord/chipsview/ChipsVerticalLinearLayout.java:30-40 | A new layout has no rows and no width yet |
| VerticalLayout.ChipsVerticalLinearLayout.OnChipsChanged | chipsview/src/main/java/com/discord/chipsview/ChipsVerticalLinearLayout.java:42-77 | The loop clears the rows, answers nothing (and keeps no rows) exactly when the width is 0, and otherwise leaves the rows and returns the answer of the specification function Layout |
| ChipsInput.KeepMembership | chipsview/src/main/java/com/discord/chipsview/ChipsView.java:375-384 | A key survives filtering exactly when it was present and is to be kept |
| ChipsInput.KeepConcat | chipsview/src/main/java/com/discord/chipsview/ChipsView.java:375-384 | Filtering works entry by entry, so the survivors keep their relative order |
| ChipsInput.KeepUnchanged | chipsview/src/main/java/com/discord/chipsview/ChipsView.java:375-389 | Filtering leaves the keys as they are exactly when every key is kept |
| ChipsInput.KeepDistinct | chipsview/src/main/java/com/discord/chipsview/ChipsView.java:79 | Removing entries from a map keeps its keys distinct |
| ChipsInput.KeepDropsLast | chipsview/src/main/java/com/discord/chipsview/ChipsView.java:333-334 | Removing the key of the last entry drops exactly the last key and keeps the others in order |
| ChipsInput.CoherentPut | chipsview/src/main/java/com/discord/chipsview/ChipsView.java:236-238 | Putting an unselected chip under its own key keeps the collection coherent and leaves that key unselected |
| ChipsInput.CoherentRemove | chipsview/src/main/java/com/discord/chipsview/ChipsView.java:333-334 | Removing a key and its entry keeps the collection coherent; the selected keys lose only that key |
| ChipsInput.CoherentKeep | chipsview/src/main/java/com/discord/chipsview/ChipsView.java:375-384 | Keeping only some keys and their entries keeps the collection coherent; the selected keys are those that survive |
| ChipsInput.ChipsView.constructor | chipsview/src/main/java/com/discord/chipsview/ChipsView.java:164-204 | A new field has no chips, an empty unfocused buffer, no notifications, no span yet (indent 0, detached), and one layout run that found no width |
| ChipsInput.ChipsView.OnChipsChanged | chipsview/src/main/java/com/discord/chipsview/ChipsView.java:271-289 | Runs the engine on the chips in collection order and records the run with its cursor flag; when the engine answers, a span with the returned margin is attached, and otherwise the margin stays as it was |
| ChipsInput.ChipsView.AddChipWithFlag | chipsview/src/main/java/com/discord/chipsview/ChipsView.java:236-250 | Without a duplicate check: the key then holds a new unselected chip with the payload, flag and normalised label; a new key goes last, an existing key keeps its place; exactly one Added(data) is raised; one layout run moving the cursor |
| ChipsInput.ChipsView.Put | chipsview/src/main/java/com/discord/chipsview/ChipsView.java:237-241 | Creates the chip, puts it under its key and then raises Added(data), keeping the collection coherent |
| ChipsInput.ChipsView.Notify | chipsview/src/main/java/com/discord/chipsview/ChipsView.java:239-241 | Appends exactly the given notification to the log |
| ChipsInput.ChipsView.Store | chipsview/src/main/java/com/discord/chipsview/ChipsView.java:238 | The ordered-map put: a new key goes last, an existing key keeps its place and gets the new chip; the replaced chip's selection is dropped |
| ChipsInput.ChipsView.AddChip | chipsview/src/main/java/com/discord/chipsview/ChipsView.java:226-234 | A key already present changes nothing at all; otherwise a deletable chip is added as AddChipWithFlag says (one Added(data), one cursor-moving layout run, container width unchanged), the text buffer is emptied, and the span created last is attached again |
| ChipsInput.ChipsView.ResetText | chipsview/src/main/java/com/discord/chipsview/ChipsView.java:232-233 | The buffer is empty and the span created last is attached to it, with its indent unchanged |
| ChipsInput.ChipsView.Clear | chipsview/src/main/java/com/discord/chipsview/ChipsView.java:252-255 | Every chip is removed without notifications; one layout run moving the cursor |
| ChipsInput.ChipsView.UnselectChipsExcept | chipsview/src/main/java/com/discord/chipsview/ChipsView.java:345-352 | The loop over the chips leaves every chip but the excepted one unselected and that one as it was, changes no key, and lays out once without moving the cursor |
| ChipsInput.ChipsView.UnselectAllChips | chipsview/src/main/java/com/discord/chipsview/ChipsView.java:354-356 | Keys unchanged and no chip selected |
| ChipsInput.ChipsView.OnChipInteraction | chipsview/src/main/java/com/discord/chipsview/ChipsView.java:331-343 | A selected chip is removed (other keys kept in order), Deleted(data) is raised, and nothing stays selected; an unselected chip becomes the only selected chip, or none if indelible, and nothing is removed; an indelible chip is never removed; two layout runs, the second moving the cursor only after a removal |
| ChipsInput.ChipsView.Select | chipsview/src/main/java/com/discord/chipsview/ChipsView.java:339-341 | With nothing selected, selecting the chip makes it the only selected one, or leaves none when it is indelible; one layout run not moving the cursor |
| ChipsInput.ChipsView.Remove | chipsview/src/main/java/com/discord/chipsview/ChipsView.java:333-337 | The key and its entry go, the other keys keep their order, Deleted(data) is raised; one layout run moving the cursor |
| ChipsInput.ChipsView.Forget | chipsview/src/main/java/com/discord/chipsview/ChipsView.java:333-336 | The map removal and then the deletion notification, keeping the collection coherent |
| ChipsInput.ChipsView.Toggle | chipsview/src/main/java/com/discord/chipsview/ChipsView.java:333-341 | Once at most the chip itself is selected: a selected chip is removed with Deleted(data) and a cursor-moving layout run, leaving nothing selected; an unselected chip becomes the only selected one (none if indelible) with a layout run not moving the cursor |
| ChipsInput.ChipsView.Prune | chipsview/src/main/java/com/discord/chipsview/ChipsView.java:375-389 | Keeps exactly the chips whose key is given, in their order, with no notification; one layout run moving the cursor when a chip was dropped, none otherwise |
| ChipsInput.ChipsView.Survivors | chipsview/src/main/java/com/discord/chipsview/ChipsView.java:377-384 | The walk over the entries returns the surviving keys in order, and whether any entry is dropped |
| ChipsInput.ChipsView.Restrict | chipsview/src/main/java/com/discord/chipsview/ChipsView.java:377-384 | The collection becomes the surviving entries, coherent, and the selected keys are those that survive |
| ChipsInput.ChipsView.SelectOrDeleteLastChip | chipsview/src/main/java/com/discord/chipsview/ChipsView.java:312-329 | Without chips nothing changes; otherwise the walk finds the last key and the field interacts with that chip |
| ChipsInput.ChipsView.OnEditTextFocusChange | chipsview/src/main/java/com/discord/chipsview/ChipsView.java:216-223 | Gaining focus unselects every chip and keeps the keys, with one layout run; losing it changes nothing else: no layout run, the same rows, margin and selection |
| ChipsInput.ChipsView.OnContainerClick | chipsview/src/main/java/com/discord/chipsview/ChipsView.java:207-213 | The buffer gets focus, the keys stay, no chip is selected; an extra layout run happens when focus moved |
| ChipsInput.ChipsView.OnChipClick | chipsview/src/main/java/com/discord/chipsview/Chip.java:121-125 | The buffer loses focus and keeps its text, and the tapped chip is interacted with as OnChipInteraction says: removed if it was selected, otherwise the only selected chip (none if indelible); two layout runs, the second moving the cursor only after a removal |
| ChipsInput.ChipsView.SetText | chipsview/src/main/java/com/discord/chipsview/ChipsView.java:367-369 | The buffer holds the given text, and the span is detached from it (the plain text carries none) |
| ChipsInput.ChipsView.GetText | chipsview/src/main/java/com/discord/chipsview/ChipsView.java:371-373 | Returns the buffer's text |
| ChipsInput.ChipsView.SendKeyEvent | chipsview/src/main/java/com/discord/chipsview/ChipsView.java:418-429 | A backspace press on an empty buffer is taken and steps the last chip (nothing changes without chips); any other event, or any event on a non-empty buffer, is passed on with the field untouched |
| ChipsInput.ChipsView.DeleteSurroundingText | chipsview/src/main/java/com/discord/chipsview/ChipsView.java:431-441 | Deleting one character before the cursor of an empty buffer performs exactly one backspace step and passes on only the release; any other request is passed on with the field untouched |
| ChipsInput.TwoStepBackspace | chipsview/src/main/java/com/discord/chipsview/ChipsView.java:312-343 | On an empty buffer with nothing selected and a deletable last chip, the first backspace only selects that chip and the second deletes exactly it, raising one Deleted |
| ChipsInput.IndelibleLastChipStays | chipsview/src/main/java/com/discord/chipsview/ChipsView.java:331-343 | Backspace never removes an indelible last chip or raises a notification, and leaves nothing selected |

## Left out

- `ImageUtil.java` and the chip's photo URI: image loading has no effect on the chips, the order or the selection.
- View construction and theming are left out: inflating and styling chip views, colours, density arithmetic, `onMeasure`, and scrolling after an addition (`fullScroll`).
- The deferred re-run of a layout that found no width (`post`) is not modelled. The engine answers "not ready", the margin stays, and a later call runs it again. Measuring a view is the parameter `measure`.
- The leading-margin span object and cursor placement are not modelled. The span is the field `margin` (its indent and whether it is attached to the current text), and the "move the cursor to the end" request is the flag recorded with each layout run.
- ChipsInput.ChipsView.AddChip attaches the span created last even when no layout run has created one yet (the container was never measured); the model attaches a zero indent there, where the source passes a null span to the text.
- The 15% test `width - sum < width * 0.15f` is modelled in integers as `20 * (width - sum) < 3 * width`. Float rounding can decide differently within one unit of the boundary. The examples avoid that point.
- Java's 32-bit `int` overflow of the running width sum and row counter is not modelled: widths are unbounded naturals.
- The text-changed listener and the `InputConnectionWrapper` calls passed on to the wrapped connection are not modelled. A passed-on call is recorded as a `Forwarded` value; its answer is the wrapped connection's and is not modelled. `commitText` only passes its call on.
- The `IndexOutOfBoundsException` handler in `selectOrDeleteLastChip` is not modelled: the walk to the last key cannot fail in the model.
- `clearEditTextFocus` has no method of its own. `OnChipClick` sets the focus flag directly; losing focus triggers nothing.
- Notifications are recorded in the `events` log whether or not a listener is registered.
- ChipsInput.ChipsView.OnChipInteraction requires the key to be in the collection. The source takes any `Chip` object, but every chip that reaches it (a tap or the last entry) comes from the map.
- ChipEntity.Chip.Equals compares only with another chip. Comparison with an object of another class, which is always false in the source, is not modelled.
- The payload's display string is a fixed function, and a missing label is `None`. A null payload is not modelled.
- Three behaviours of the source, which the model keeps:
  - `addChip` returns nothing, so a caller cannot tell whether a chip was added;
  - there is no public method that removes a single chip by key;
  - indelible chips are never selected, not even for display.
- VerticalLayout.ChipsVerticalLinearLayout.SetWidth stands for the platform's layout pass, which gives the container its width; the pass itself is not modelled.
- Put, Store, Notify, ResetText, Forget, Toggle, Select, Remove, Survivors and Restrict are steps of the operations above, split out to keep each proof small.
