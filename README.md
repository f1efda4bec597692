# A verified model of the core of the jete terminal editor

jete is a small terminal text editor written in Rust. This project models its
sequential core in Dafny and proves properties of the model. The core has five
parts:

- **`EditorState`** (`state.dfy`) is the editor state machine of `src/state.rs`.
  A `State` holds the lines, the cursor, the mode, the command line and the
  status text. `Dispatch` routes a key event by mode (Insert, Command or
  Normal). The operations it reaches are insert, mode shift, cursor move and
  command commit (`q` quits, `w` writes).
- **`TextBuffer`** (`text.dfy`) is the revision-tracked text buffer of
  `src/text.rs`. Every structural edit bumps a global revision counter and
  records it at the edited index in a sparse map. It also drops every entry at
  a larger index. A line reports the revision at the greatest key at or below
  its index.
- **`Bouncer`** (`bouncer.dfy`) is the frame-pacing deadline generator of
  `bouncer/src/lib.rs`. `Mark` arms a deadline on the next period boundary
  counted from the start time. It skips one more period when that boundary is
  closer than the grace period. A zero period arms a deadline already in the
  past.
- **`PubSub`** (`pubsub.dfy`) is the typed publish/subscribe registry
  `HubInternal` of `src/pubsub.rs`. Topics are keyed by name and payload type.
  `Send` offers the value to every subscriber and prunes the closed ones with a
  reverse-order `swap_remove`. It reports whether any subscriber remains.
- **`TypedStore`** (`typedstore.dfy`) is the type-keyed store of
  `typedstore/src/lib.rs`. It holds at most one value per type.

`wrappers.dfy` holds the `Option` type the other modules share.

Some modelling choices:

- Lines are `seq<char>`. The editor indexes a Rust `String` by byte, so the
  model assumes ASCII text, where a byte index is a character index.
- Bouncer instants are whole nanoseconds (`int`) and durations are whole
  nanoseconds (`nat`), so `Duration::as_millis` truncation is exact.
  `Instant::now()` becomes an explicit `now` parameter.
- A pub/sub subscriber is a record: whether its receiver still exists, and the
  values queued for it. A `TypeId` is an abstract equality type.
- Mutable state is a Dafny `class` where the source changes it in place. Its
  fields are `seq` and `map` values that the methods reassign. Each method's
  `ensures` states its whole new state in terms of specification functions,
  and lemmas prove what the source promises about those functions.

`Duration::as_millis` truncates. So with a 10 ms period and a 1 ms grace
period, a mark at 9.5 ms sees 9 ms elapsed. The boundary is then 1 ms away,
which is not below the grace period, so the deadline is 10.5 ms and not 20 ms.
`Bouncer.TenMillisecondExample` proves this value.

## Model

| member | source | states |
|---|---|---|
| TextBuffer.RemoveChar | src/text.rs:58-60 | the line is one shorter; characters before the index are kept and later ones shift down by one |
| TextBuffer.ExtendLine | src/text.rs:66-69 | the result is the line followed by `other`, which must hold no newline (the source's assert) |
| TextBuffer.Below | src/text.rs:162 | `split_off(n + 1)` keeps exactly the entries with key below the bound, with their values |
| TextBuffer.RevAt | src/text.rs:114-121 | the revision reported for an index is 0 when no key is at or below it, else the value at the greatest key at or below it |
| TextBuffer.RevAtBelowKey | src/text.rs:114-121 | with increasing values, the revision reported below a recorded key is at most that key's value |
| TextBuffer.RevAtMonotone | src/text.rs:114-123 | with increasing values, the reported revision never decreases with the line index |
| TextBuffer.RevAtAtMost | src/text.rs:114-121 | the reported revision is at most the counter when every recorded one is |
| TextBuffer.RecordKeepsIncreasing | src/text.rs:160-163 | recording a new revision at n and dropping the keys past n keeps values strictly increasing and at most the new counter |
| TextBuffer.Text.New | src/text.rs:92-98 | revision 0, no recorded changes, no lines |
| TextBuffer.Text.From | src/text.rs:100-112 | the input lines in order, revision 0, an empty map, and every line reports revision 0 |
| TextBuffer.Text.Bump | src/text.rs:21-24 | the counter grows by exactly one and the new value is returned |
| TextBuffer.Text.LineAt | src/text.rs:114-123 | None exactly past the end; otherwise the line with `RevAt` of the map, which is at most the counter |
| TextBuffer.Text.LineCount | src/text.rs:156-158 | the number of lines |
| TextBuffer.Text.IterLines | src/text.rs:152-154 | one view per line, each equal to `LineAt` of its index, with revisions non-decreasing in index |
| TextBuffer.Text.LineChanged | src/text.rs:160-163 | counter grows by one; key n holds the new revision; keys below n keep their values; no key above n remains; the invariant is kept |
| TextBuffer.Text.LineMut | src/text.rs:125-128 | the change is recorded even past the end; the line is edited and found is true exactly when the index is in range |
| TextBuffer.Text.RemoveLine | src/text.rs:130-137 | past the end: None, nothing changes, not even the counter; in range: that line is returned, later lines shift down, and the change is recorded |
| TextBuffer.Text.InsertLine | src/text.rs:139-145 | the line is placed at n, later lines shift up, the count grows by one, and the change is recorded |
| TextBuffer.Text.InsertLineFromChars | src/text.rs:147-150 | as InsertLine, with the line built from the characters |
| EditorState.LineOf | src/state.rs:169-171 | the line at n exactly when n is in range |
| EditorState.PadLines | src/state.rs:106-108 | empty lines are appended until the cursor line exists; earlier lines are kept |
| EditorState.PadLine | src/state.rs:112-114 | spaces are appended until the line reaches the cursor column; the old content is a prefix |
| EditorState.InsertAt | src/state.rs:100-126 | the Insert-mode edit: the buffer grows to hold the cursor line (one more line for a newline), and the cursor moves to (line + 1, 0) after a newline, else one column right |
| EditorState.InsertCharEffect | src/state.rs:100-126 | a non-newline char lands at the cursor column of the padded cursor line; every other line is unchanged or new and empty; the column advances by exactly one |
| EditorState.InsertNewlineEffect | src/state.rs:118-122 | a newline splits the padded cursor line at the column: prefix stays, suffix becomes the next line, later lines move down, and the cursor goes to (line + 1, 0) |
| EditorState.InsertKeepsCursorValid | src/state.rs:106-126 | after an Insert-mode insert the cursor line exists and the column is at most its length (the assert at line 116 holds) |
| EditorState.InsertKeepsNoNewlines | src/state.rs:106-126 | an insert never leaves a newline inside a line |
| EditorState.Saturating | src/state.rs:191-200 | saturating add/sub of a signed step: exact when non-negative, else 0 |
| EditorState.MovedCursor | src/state.rs:186-202 | the cursor `move_cursor` computes always lies inside the document |
| EditorState.MoveBounds | src/state.rs:186-202 | after a move the line is at most max(count, 1) - 1 and the column at most the new line's length (0 if it does not exist) |
| EditorState.MoveExactOrSaturated | src/state.rs:186-202 | a move inside the document is exact; past the top or the line start it saturates at 0; past the last line it stops on the last line, and past a line's end at that line's length |
| EditorState.Route | src/state.rs:50-97 | the operation `dispatch` picks: moves only from Normal-mode characters, commits only in Command mode, non-key events ignored |
| EditorState.RouteTable | src/state.rs:50-97 | the dispatch table of each mode, and Commit exactly for a newline in Command mode |
| EditorState.FileImage | src/state.rs:158-165 | the written bytes: nothing for no lines, the single line alone, otherwise the first line then a newline before the rest |
| EditorState.FileImageSnoc | src/state.rs:158-165 | appending a line to the written image adds one separator and the line |
| EditorState.FileImageSplits | src/state.rs:158-165 | for a non-empty buffer of newline-free lines, splitting the written image at newlines gives back the lines; an empty buffer and a single empty line both write nothing, so the image does not tell them apart |
| EditorState.TypingSession | src/state.rs:100-126 | in Insert mode on an empty buffer, typing a, b, newline, c gives lines "ab" and "c" with the cursor at (1, 1) |
| EditorState.InsertedStatus | src/state.rs:128 | the status is "inserted char: " and one more character: the inserted one, or NUL (`'\0'`) for a newline |
| EditorState.QuitSession | src/state.rs:50-97 | Esc, ':', 'q', newline returns Quit from any mode and leaves the lines unchanged |
| EditorState.State.Empty | src/state.rs:213-225 | no lines, cursor (0, 0), Normal mode, empty command and status, no file |
| EditorState.State.FromFile | src/state.rs:231-259 | the lines as read, cursor (0, 0), Normal mode, empty command and status, a file present |
| EditorState.State.LineText | src/state.rs:169-171 | the line at n exactly when n is in range |
| EditorState.State.ShiftMode | src/state.rs:181-184 | the mode becomes m and the command line empty; lines, cursor and status are unchanged |
| EditorState.State.InsertKey | src/state.rs:100-140 | Insert mode: the `InsertAt` edit and status text; Command mode: non-newline chars are appended to the command line and a newline is ignored; Normal mode: nothing changes |
| EditorState.State.InsertIntoText | src/state.rs:100-129 | the lines and cursor become `InsertAt` of the old ones, the status shows the char, and the cursor stays inside the document |
| EditorState.State.PadBuffer | src/state.rs:106-108 | the padding loop leaves `PadLines` of the old lines |
| EditorState.State.PadCursorLine | src/state.rs:110-114 | the padding loop pads the cursor line and leaves every other line unchanged |
| EditorState.State.Write | src/state.rs:155-167 | with a file, the bytes written are the lines joined by newlines, none trailing; without one, nothing is written |
| EditorState.State.CommitCommand | src/state.rs:142-153 | back to Normal with an empty command line; Quit exactly for "q"; a write exactly for "w" with a file |
| EditorState.State.MoveCursor | src/state.rs:186-202 | the cursor becomes `MovedCursor` of the old one and nothing else changes |
| EditorState.State.Dispatch | src/state.rs:50-97 | each routed operation's effect; Quit exactly for newline in Command mode with command "q"; the state invariant is kept |
| Bouncer.BouncerBuilder.TimeBetweenDeadlines | bouncer/src/lib.rs:18-21 | sets the period and keeps the grace period |
| Bouncer.BouncerBuilder.SkipHotDeadline | bouncer/src/lib.rs:23-26 | sets the grace period and keeps the period |
| Bouncer.Builder | bouncer/src/lib.rs:39-44 | zero period, no grace period |
| Bouncer.AsMillis | bouncer/src/lib.rs:30-31 | whole milliseconds, truncated: the largest r with r ms at most the duration |
| Bouncer.MillisIn | bouncer/src/lib.rs:57-60 | the whole milliseconds into the current period are below the period |
| Bouncer.TimeUntilNextDeadline | bouncer/src/lib.rs:57-67 | between 1 ms and two periods, and at most one period without a grace period |
| Bouncer.NextDeadline | bouncer/src/lib.rs:51-75 | with a zero period the deadline is before now; otherwise it is after now |
| Bouncer.ZeroPeriodDeadlinePassed | bouncer/src/lib.rs:51-54 | with a zero period the armed deadline is strictly before now |
| Bouncer.DistanceToBoundary | bouncer/src/lib.rs:56-67 | the distance to the next boundary is in [1, P]; the grace period adds one period exactly when the distance is below it |
| Bouncer.DeadlineAhead | bouncer/src/lib.rs:56-75 | for a non-zero period the deadline is strictly after now and at most two periods ahead |
| Bouncer.PhaseAnchored | bouncer/src/lib.rs:56-75 | in whole milliseconds the deadline is a multiple of the period after the start, and it keeps now's sub-millisecond offset |
| Bouncer.TenMillisecondExample | bouncer/src/lib.rs:56-75 | concrete deadlines for a 10 ms period: marks at 5 ms and 9 ms give 10 ms, 9.5 ms gives 10.5 ms, and a 2 ms grace at 9 ms gives 20 ms |
| Bouncer.HotDeadlineSkipper | bouncer/src/lib.rs:132-171 | without grace the deadline is at most one period away; with a grace of 10 ms less 1 us it is further whenever the boundary is under 9 ms away |
| Bouncer.Bouncer.Build | bouncer/src/lib.rs:28-35 | durations are truncated to whole milliseconds, the start is now, and nothing is armed |
| Bouncer.Bouncer.Mark | bouncer/src/lib.rs:46-76 | an armed deadline is kept; otherwise the deadline becomes `NextDeadline` of the period, grace, start and now |
| Bouncer.Bouncer.CurrentDeadline | bouncer/src/lib.rs:78-80 | the armed deadline, if any |
| Bouncer.Bouncer.DurationUntilDeadline | bouncer/src/lib.rs:82-89 | None when unarmed, else max(deadline - now, 0) |
| Bouncer.Bouncer.Clear | bouncer/src/lib.rs:91-93 | disarms |
| Bouncer.Bouncer.Expired | bouncer/src/lib.rs:95-97 | true exactly when a deadline is armed and has been reached |
| Bouncer.DefaultBouncerExpiresImmediately | bouncer/src/lib.rs:104-109 | a default bouncer has expired as soon as it is marked |
| Bouncer.LongPeriodBouncer | bouncer/src/lib.rs:111-129 | with a 10 s period marked within 0.5 s of building, the bouncer has not expired at a later instant still within that 0.5 s, and strictly between 9.5 s and 10 s remain then |
| PubSub.TypedTopic | src/pubsub.rs:29-37 | the key is the name together with the payload type |
| PubSub.TopicKeying | src/pubsub.rs:29-53 | two keys are equal exactly when both the names and the types are |
| PubSub.Deliver | src/pubsub.rs:103 | a live subscriber gets the value appended to its queue; a closed one is unchanged |
| PubSub.Live | src/pubsub.rs:101-114 | the live subscribers form a list no longer than the original, all of them alive |
| PubSub.LiveAppend | src/pubsub.rs:101-114 | the live part of a concatenation is the concatenation of the live parts |
| PubSub.LiveOfAllAlive | src/pubsub.rs:101-114 | a list of live subscribers is its own live part |
| PubSub.SwapRemove | src/pubsub.rs:113 | `swap_remove` keeps the prefix, puts the last element in the gap, keeps the elements between the gap and the end in place, and removes one occurrence of the element |
| PubSub.SwapRemoveMultiset | src/pubsub.rs:113 | the expression `SwapRemove` builds is one shorter, keeps the prefix, holds the last element in the gap, and lacks one occurrence of the removed element |
| PubSub.DeliverAll | src/pubsub.rs:101-107 | the loop offers the value to every subscriber and collects the closed indices, in increasing order |
| PubSub.RemoveStart | src/pubsub.rs:112-114 | above the largest closed index every subscriber is alive |
| PubSub.RemoveStep | src/pubsub.rs:112-114 | removing the next-lower closed index keeps the part below it unchanged and the part above it equal, as a multiset, to the live subscribers there |
| PubSub.RemoveClosed | src/pubsub.rs:112-114 | reverse-order `swap_remove` of the closed indices leaves exactly the live subscribers, as a multiset, all alive |
| PubSub.HubInternal.constructor | src/pubsub.rs:91-95 | no topics |
| PubSub.HubInternal.GetOrCreateTopic | src/pubsub.rs:131-143 | an absent topic is created with no subscribers; nothing else changes |
| PubSub.HubInternal.GetReceiver | src/pubsub.rs:123-129 | exactly one live subscriber with an empty queue is appended to the topic (created if absent); other topics are unchanged |
| PubSub.HubInternal.CloseReceiver | src/pubsub.rs:102-106 | the subscriber at the position is marked closed, so later sends to it fail; nothing else changes |
| PubSub.HubInternal.Send | src/pubsub.rs:97-121 | the topic's subscribers become, as a multiset, the live ones with the value appended; Ok iff one remains iff one was alive; an unknown topic is created and gives Err; other topics are unchanged |
| PubSub.SubscribersOf | src/pubsub.rs:131-143 | the subscribers of a topic as stored, none for a topic not yet created |
| PubSub.DeliverEach | src/pubsub.rs:102-107 | every subscriber is offered the value, in place |
| PubSub.LiveEmpty | src/pubsub.rs:116-120 | a subscriber remains after pruning exactly when one was alive |
| PubSub.DeliveredInOrder | src/pubsub.rs:102-107 | a live subscriber is kept with the value appended after its earlier ones, so values arrive in send order |
| TypedStore.Downcast | typedstore/src/lib.rs:25-28 | the downcast succeeds exactly when the box was made at the requested type |
| TypedStore.Lookup | typedstore/src/lib.rs:23-29 | None exactly for a type never set; otherwise the value stored under that type, and the downcast cannot fail |
| TypedStore.Insert | typedstore/src/lib.rs:17-21 | the keys grow by the type and entries stay keyed by their own type |
| TypedStore.LookupInsert | typedstore/src/lib.rs:17-29 | after a set, get of the same type returns the value and get of any other type returns what it did before |
| TypedStore.InsertOverwrites | typedstore/src/lib.rs:20 | setting a type twice keeps only the later value |
| TypedStore.InsertCommutes | typedstore/src/lib.rs:17-21 | sets of different types commute |
| TypedStore.TypedStore.constructor | typedstore/src/lib.rs:10-15 | the new store returns None for every type |
| TypedStore.TypedStore.Set | typedstore/src/lib.rs:17-21 | the value is stored under its type, replacing an earlier one; other types keep their values |
| TypedStore.TypedStore.Get | typedstore/src/lib.rs:23-29 | None exactly for a type never set, else the value stored under it |
| TypedStore.StoreStdTypes | typedstore/src/lib.rs:39-90 | the u8, u64, i8 and `&str` values set in one store read back unchanged (and the u8 is not 13); on a new store a u8 reads as None until one is set, then as that value |

## Left out

- File I/O in `src/state.rs`: `from_file` opens and reads the file. `FromFile` takes the lines `BufRead::lines` returned, and `hasFile` stands for the `file` field. `Write` returns the bytes written instead of writing them.
- `EditorState.State.Write`: the file is not truncated, and the results of the two writes (src/state.rs:161 and 163) are discarded. So the model does not claim that the file afterwards holds exactly the image, nor a write/read round-trip. `BufRead::lines` drops a trailing empty line.
- `EditorState.State.Write`: a failing seek panics through `expect` (src/state.rs:157); that panic is not modelled.
- The clock: `Instant::now()` is a `now` parameter. The `checked_add` panic "end of time" cannot happen with unbounded instants.
- `Bouncer.Bouncer.Mark`: the `u64` cap on the millisecond count is modelled. `Instant` overflow is not.
- Concurrency in `src/pubsub.rs`: the `Hub` wrapper (`Arc<Mutex<…>>`), channel blocking and receiving, and the cross-thread test are not modelled. The model is the single-threaded `HubInternal`.
- `Box<dyn Any>` heterogeneity: a hub carries one payload type `T`. The `downcast_mut` in `get_or_create_topic` always succeeds there, because a topic key includes its type.
- `PubSub.HubInternal.Send`: the subscriber order after pruning is stated as a multiset, not as the exact order that `swap_remove` leaves.
- `TypedStore`: `TypeId::of::<T>()` is an abstract key passed by the caller together with the value. The `expect` in `get` corresponds to the invariant that every entry is keyed by its own type, which `Valid` states and every operation keeps.
- Integer widths: `Rev` is a `u64` whose overflow is not modelled. Cursor coordinates are `usize`, and saturation at the top of `usize` is not modelled. The `i8` direction of `move_cursor` is an `int`, so `(-128).abs()` overflow is not modelled; `dispatch` only passes steps of ±1.
- Panics on caller misuse become preconditions. `Line::remove_char` and `Vec::insert` panic past the end, so `RemoveChar`, `InsertLine` and `InsertLineFromChars` require an index in range. `Line::extend_line` asserts that the appended line holds no newline (src/text.rs:67), so `ExtendLine` requires it.
- Subscriber identity: `GetReceiver` returns a position and `CloseReceiver` takes one. A pruning `Send` reorders the list with `swap_remove`, so a position is only valid until the next send that prunes. In the source, dropping a `Receiver` always closes its own channel.
- `TextBuffer.Text.LineMut`: the mutable borrow it hands out is modelled by a caller-supplied function `edit` applied to the line.
- Non-ASCII text: a line is a character sequence, whereas `src/state.rs` indexes bytes.
- Trivial getters are not modelled as members; they are plain reads of the `State` fields: `status_text`, `mode`, `cursor_pos` and `command_line` in `src/state.rs`.
- Small `Line` helpers of `src/text.rs` have no member of their own. `Line::char_count` and `LineView::content_str` read the `content` field of the `Line` datatype, and `Line::from_chars` is its constructor `Line(chars)`. The mutable borrow that `content_mut` hands out is not modelled; its one use, in `extend_line`, is `ExtendLine`.
- Logging (`log::debug!`, `println!`) is not modelled.
- The rest of the editor is not modelled: `src/highlight.rs` (syntax highlighting through an external library and a thread), `src/terminal.rs` (terminal I/O), `src/editor.rs` (the event loop), `src/main.rs`, `src/userinput.rs` and `src/display.rs`.
- `src/state.rs` has no delete or join operation, so none is modelled.
