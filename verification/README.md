# TextView: line-image table and style flags

A Dafny model of the two pieces of toolkit-independent logic inside the
`TextView` text-viewing control of neatpad (`TextView/TextView.cpp`):

- **The per-line image table** (`m_LineInfo`, `m_nLineInfoCount`). It is a
  fixed-capacity array of `LINEINFO` records `(nLineNo, nImageIdx)` with a
  live count. The control keeps it sorted by line number, with no line number
  twice, so it works as a map from line number to image index.
  `SetLineImage` overwrites the image of a line already present. Otherwise it
  appends a record and re-sorts the live records with `qsort`.
  `GetLineInfo` finds a line with `bsearch`. Both use the comparator
  `CompareLineInfo`.
- **The style-flag word** (`m_uStyleFlags`). This is a 32-bit ULONG of TXS_*
  bits. `SetStyle` performs a masked update and returns the old word.
  `GetStyleMask` and `CheckStyle` are masked queries.
- **The plain setters** `SetCaretWidth` and `SetLongLine`. Each stores a
  value and returns the one it replaced.

Layout:

- `wrappers.dfy` (`Wrappers`) holds `Option`. `None` stands for a null
  pointer.
- `style_flags.dfy` (`StyleFlags`) holds the masked-update and
  masked-query rules on `bv32`.
- `line_images.dfy` (`LineImages`) holds the table, the comparator, the
  sort, the binary search, `SetLineImage`, and a reference linear lookup
  that gives the map view of the table.
- `text_view.dfy` (`TextView`) holds the view state, its initial value and
  the setters.

Modelling decisions:

- **The array is a value.** The array is a `Table(slots, count)`. Its
  capacity is `|slots|` and its live records are `slots[..count]`.
  Operations return the new table instead of mutating it.
- **A pointer into the array is a slot index.** `GetLineInfo` returns
  `Option<nat>`.
- **The `qsort` call is `SortLines`.** `SortLines` is a functional
  insertion sort. Every proof about `SetLineImage` uses only its contract:
  the result is sorted and is a permutation of the input. Because the new
  line is absent before the sort, any sorted permutation works. The model
  proves that it keeps line numbers distinct (`AppendSortedKeeps`), so
  `qsort` being unstable does not matter.
- **The `bsearch` call is `GetLineInfo`.** It is a loop-invariant binary
  search that branches on `CompareLineInfo(key, slot)` with the key
  `{ nLineNo, 0 }`, as at line 240. Its precondition is the one `bsearch`
  states: the live records are sorted.
- **The array capacity is a parameter.** The capacity of `m_LineInfo` and
  the widths of the `LINEINFO` fields are declared in `TextViewInternal.h`,
  which is not part of this model. Both fields are modelled as ULONG
  (0 to 2^32 - 1), the type `SetLineImage` takes. Line 222 appends with no
  bounds check. `SetLineImage` therefore requires the line to be present or
  the array to have a free slot.
- **Side effects are dropped.** The repaint calls made after a change
  (`UpdateMetrics`, `RefreshWindow`) are not modelled.

## Model

| member | source | states |
|---|---|---|
| LineImages.CompareLineInfo | TextView/TextView.cpp:201-209 | Returns -1, 0 or 1. It is negative, zero or positive exactly when the first line number is less than, equal to or greater than the second. The image index plays no part. |
| LineImages.CompareIsPreorder | TextView/TextView.cpp:201-209 | The comparator is antisymmetric in sign and transitive. That makes it a valid order for `qsort` and `bsearch`. |
| LineImages.Empty | TextView/TextView.cpp:44 | The constructor sets only the live count to 0 and leaves the array's contents uninitialised, so they are a parameter. Such a table satisfies the invariant and holds no line. |
| LineImages.SortLines | TextView/TextView.cpp:226-232 | Re-sorting yields a sequence sorted by `CompareLineInfo` that is a permutation (same multiset) of its input. |
| LineImages.PermutationKeepsLines | TextView/TextView.cpp:226-232 | A permutation keeps the same records and the same line numbers. It also keeps the line numbers distinct when the input had them distinct. |
| LineImages.DistinctIffLineSetFull | TextView/TextView.cpp:213-232 | The line numbers are distinct exactly when there are as many distinct line numbers as records. This is the counting fact behind the no-duplicates invariant. |
| LineImages.GetLineInfo | TextView/TextView.cpp:238-250 | Returns a slot exactly when some live record has the line, and that slot holds the line. Returns None (null) exactly when no live record has the line. On a valid table the image found is the one the reference lookup gives. |
| LineImages.FoundIsUnique | TextView/TextView.cpp:238-250 | On a valid table at most one live slot holds a given line, so the record the search finds is the only one. |
| LineImages.Lookup | TextView/TextView.cpp:238-250 | Reference lookup by linear scan. It finds an image exactly when the line is among the records, and the record with that image is present. |
| LineImages.LookupFinds | TextView/TextView.cpp:238-250 | When line numbers are distinct, looking up the line of any record yields that record's image. |
| LineImages.OverwriteKeeps | TextView/TextView.cpp:216-219 | Overwriting the image of an existing record keeps the table sorted and distinct. It keeps the set of line numbers and every record of any other line. |
| LineImages.AppendSortedKeeps | TextView/TextView.cpp:220-232 | Appending a record for a new line and taking any sorted permutation has several effects. Line numbers stay distinct. The count grows by one. The new record is present. The line set gains exactly the new line. Records of other lines are the same as before. |
| LineImages.LookupAfterUpdate | TextView/TextView.cpp:211-236 | If two distinct-line tables agree on every other line and the second holds `(n, i)`, their lookups differ only by the map update `n := i`. |
| LineImages.SetLineImage | TextView/TextView.cpp:211-236 | Keeps the invariant (sorted, no duplicates, count within capacity) and the capacity. The count is unchanged for an existing line and grows by exactly one for a new line. The line then carries the new image. Records of other lines are unchanged, the line set grows by exactly `{n}`, and the map view takes the single update `n := imageIdx`. Returns 0. |
| LineImages.SetThenGet | TextView/TextView.cpp:211-250 | After `SetLineImage(n, i)`, `GetLineInfo(n)` finds the record `(n, i)`. |
| StyleFlags.Update | TextView/TextView.cpp:147-158 | The word `SetStyle` stores has these properties. Every requested style is on. Every style outside the mask that was on stays on. No style is on that was neither on before nor requested. Inside the mask only requested styles are on. |
| StyleFlags.UpdateUnique | TextView/TextView.cpp:151 | Those four properties determine the stored word uniquely. |
| StyleFlags.UpdateIdempotent | TextView/TextView.cpp:147-158 | Applying the same update twice gives the same flags as applying it once. |
| StyleFlags.UpdateWithinMask | TextView/TextView.cpp:151 | When the styles lie within the mask, the masked part becomes exactly the styles and the unmasked part is unchanged. |
| StyleFlags.UpdateLastWins | TextView/TextView.cpp:151 | Of two updates of the same mask, the second decides, as long as the first stays within the mask. |
| StyleFlags.GetStyleMask | TextView/TextView.cpp:170-173 | Reports only styles that are both in the mask and on. It reports every such style. |
| StyleFlags.CheckStyleMeaning | TextView/TextView.cpp:170-178 | The predicate `StyleFlags.CheckStyle` models `TextView::CheckStyle`. `CheckStyle(m)` holds exactly when `GetStyleMask(m)` is non-zero. It is false for an empty mask or an empty flag word. |
| StyleFlags.CheckStyleMonotone | TextView/TextView.cpp:175-178 | Widening the mask can only turn `CheckStyle` from false to true. |
| StyleFlags.UpdateThenCheck | TextView/TextView.cpp:147-178 | After an update with non-empty styles, `GetStyleMask` of those styles returns them all and `CheckStyle` of them holds. |
| TextView.New | TextView/TextView.cpp:40-50 | A new view has no styles and a long-line column of 80. Its caret width is the system value, or 2 when the system reports 0, so it is never 0. Its line-image table is empty and valid whatever the uninitialised array holds. |
| TextView.SetStyle | TextView/TextView.cpp:147-158 | Returns the previous flag word. Stores the masked update. Changes nothing else in the view. |
| TextView.SetStyleTwice | TextView/TextView.cpp:147-158 | A second identical `SetStyle` call leaves the view as it is and reports the flags the first call stored. |
| TextView.SetStyleUndo | TextView/TextView.cpp:147-158 | Passing the returned old word back with a full mask restores the view. |
| TextView.SetCaretWidth | TextView/TextView.cpp:180-186 | Returns the previous caret width. Stores the new one. Changes nothing else. |
| TextView.SetLongLine | TextView/TextView.cpp:194-199 | Returns the previous long-line column. Stores the new one. Changes nothing else. |
| TextView.SettersUndo | TextView/TextView.cpp:180-199 | Setting back the value a setter returned restores the view. |

## Left out

- LineImages.SetLineImage: requires a free slot when the line is new. Line 222 writes `m_LineInfo[m_nLineInfoCount++]` with no bounds check, so the out-of-bounds write on a full array is not modelled.
- TextView.SetStyle: its contract states the stored word by reference to `StyleFlags.Update`, where the bitwise properties are stated and proved. The bit-vector inclusions are not repeated on the view-level record because they are expensive for the solver there.
- The internals of `qsort` and `bsearch` are not modelled. They are specified by their contracts: a sorted permutation, and found exactly when present.
- The capacity of `m_LineInfo` and the field types of `LINEINFO` are declared in `TextViewInternal.h`, which is not part of this model. Capacity is the length of the uninitialised array passed to `TextView.New`, and the fields are ULONG.
- The constructor's Win32 and GDI calls, the colour table, the cursor, the fonts and the `TextDocument` allocation are not modelled (lines 19-109). They have no stateable logic. The system caret width is a parameter of `TextView.New`.
- `UpdateMetrics`, `OnSetFocus`, `OnKillFocus`, and the repaint after `SetStyle` are not modelled (lines 111-145, 154-155). They are window-system side effects.
- `SetVar` and `GetVar` are not modelled. They are stubs that return 0 (lines 160-168).
- `SetImageList` is not modelled. It only stores an opaque handle (lines 188-192).
- `WndProc`, `TextViewWndProc`, `InitTextView` and `CreateTextView` are not modelled (lines 256-420). They are message routing and window-class registration. This includes the conversion of WPARAM/LPARAM message arguments to the setters' parameter types.
