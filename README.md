# nd-dialog: the shared-mask stacking coordinator

nd-dialog is a modal dialog widget. Every dialog with `hasMask` set shares
one page-wide mask (the dimmed backdrop). The widget keeps the masked
dialogs in a shared array, `mask._dialogs`, in the order they were shown.
After `show`, a dialog moves the mask under itself, copies its `zIndex` onto
the mask and joins the array. After `hide`, and inside `destroy`,
`_hideMask` takes the dialog out again. If the dialog was on top, the mask
moves under the new top. If the array is now empty, the mask is hidden.

This project models that coordinator in Dafny:

- `stack.dfy` (module `Stack`): the array as a `seq`, with its two updates.
  `Registered` pushes unless the entry is already present. `Released` pops
  the top entry or splices out the first occurrence below the top. Lemmas
  cover removal, membership, distinctness, the top entry and round trips.
- `content.dfy` (module `Content`): the `content` setter's URL pattern,
  which decides between loading remotely and rendering inline.
- `dialog.dfy` (module `Dialogs`): the `Mask` class and the `Dialog` class.
  Their methods mirror the after-show handler, `_hideMask`, `show`, `hide`,
  `destroy`, the attribute setters, and the close, Escape and mask-click
  handlers. Dialogs are objects, because the array holds references,
  compares them with `===`, and `_hideMask` reads each dialog's *current*
  attributes.
  - `Mask.Tracks()` is the global invariant. The array holds exactly the
    dialogs that are shown with a mask, each once, and the mask is visible
    exactly when the array is non-empty; no two dialogs share a cid, so
    each `click.<cid>` namespace belongs to one dialog. Every operation
    preserves it; a new dialog keeps it when its cid is not yet in use.
    `SetHasMask` preserves it only when the flag does not change on a shown
    dialog, because `hasMask` has no change hook.
  - `Mask.Placed()` says the mask sits under the top dialog at that dialog's
    z-index. It is not global: re-showing a dialog from the middle of the
    stack breaks it, and the model says so.
- `scenarios.dfy` (module `Scenarios`): the sequences the widget's tests
  walk through. Each is proved from the contracts above, not from the
  bodies.

The coordinator's four quirks are modelled as written:

- `_hideMask` does nothing when `hasMask` is false at release time.
- A mid-stack re-show moves the mask but does not reorder the array.
- The click handler is removed only if `hideOnClickMask` is still set.
- The global invariant therefore holds only conditionally.

## Model

| member | source | states |
|---|---|---|
| Stack.FirstIndex | index.js:275-281 | the index the splice loop stops at: holds `x`, with no earlier `x` |
| Stack.FirstIndexUnique | index.js:275-281 | an index holding `x` with no `x` before it is the first occurrence |
| Stack.SpliceMultiset | index.js:278 | `splice(i, 1)` removes exactly one copy of `s[i]` |
| Stack.RemoveFirst | index.js:275-281 | splicing an absent entry changes nothing; otherwise the array loses one element |
| Stack.RemoveFirstSplices | index.js:275-281 | the splice removes exactly the first occurrence and keeps the order of the rest |
| Stack.Registered | index.js:232-244 | after show the entry is present and the old array is a prefix; a new entry is the top; nothing else is added; no duplicates are introduced |
| Stack.Released | index.js:267-283 | the array shrinks by one exactly when the dialog was in it; releasing an absent dialog leaves it unchanged |
| Stack.ReleasedMultiset | index.js:267-283 | a release removes exactly one copy of the dialog |
| Stack.SpliceDistinct | index.js:278 | splicing an array without duplicates keeps it duplicate-free and drops exactly the spliced entry |
| Stack.ReleasedMembers | index.js:267-283 | from a duplicate-free array, a release removes the dialog entirely, keeps every other dialog and adds no duplicates |
| Stack.ReleasedKeepsTop | index.js:273-282 | releasing a dialog below the top leaves the top where it is |
| Stack.ReleasedShrinks | index.js:267-283 | a release never adds a dialog |
| Stack.ReleasePopsTop | index.js:269-272 | releasing the top entry pops it |
| Stack.RegisterThenRelease | tests/index.spec.js:302-331 | show then hide of a dialog not yet in the array restores the array |
| Stack.RegisterTwiceReleaseOnce | tests/index.spec.js:412-421 | showing twice registers once, so one hide removes it |
| Content.IsRemote | index.js:47-54 | only markup or text can be classified remote |
| Content.IsRemoteTextIffPrefix | index.js:51 | content is remote exactly when it starts with `http://`, `https://`, `/`, `./` or `../` |
| Content.BareFileNameIsInline | tests/index.spec.js:79-86 | `demo.html` is not a URL and is rendered as text |
| Content.UrlsAreRemote | index.js:51 | relative, root-relative, `http` and `https` URLs are loaded remotely |
| Content.NearMissesAreInline | index.js:51 | a truncated `://` separator or another scheme is not a URL |
| Dialogs.VisibleTransition | index.js:186-201 | hiding is immediate; showing fades in for 300 ms only with `fade`, runs the callback for a function effect, and is immediate otherwise |
| Dialogs.Mask.constructor | index.js:220 | the shared array starts empty with the mask hidden; the invariants hold |
| Dialogs.Mask.ReleaseKeepsTracks | index.js:258-300 | a release that hides the dialog keeps the array equal to the set of shown masked dialogs |
| Dialogs.Mask.Holds | index.js:232-239 | the scan's `existed` flag is true exactly when the dialog is in the array |
| Dialogs.Mask.AfterShow | index.js:222-252 | with `hasMask`, the mask is visible at the dialog's z-index and placed before it, the dialog is registered once, and its click handler is bound when `hideOnClickMask` is set; without `hasMask`, nothing changes |
| Dialogs.Mask.Unstack | index.js:263-283 | the flag is true exactly when the dialog was the top entry; the array becomes `Released` |
| Dialogs.Mask.HideMask | index.js:258-300 | without `hasMask`, nothing changes; otherwise the dialog is released, the mask moves under a new top only when the dialog was the top, the mask is hidden when the array empties, and the click handler is removed when `hideOnClickMask` is set; no duplicates and the placement invariant are preserved |
| Dialogs.Dialog.constructor | index.js:31-98 | the content is classified and an inline body is rendered; the close control is shown only for a non-empty `closeTpl`; the Escape handler is bound when `hideOnKeyEscape` is set; the position is computed once for inline content and not for a URL or no content; the dialog starts hidden; the stack invariant survives when its cid is new |
| Dialogs.Dialog.Show | index.js:126-134 | a remote load starts exactly when the content is a URL; with `hasMask`, the mask is visible, at the dialog's z-index, placed before it, and holds it; the invariants are preserved |
| Dialogs.Dialog.Hide | index.js:254 | the dialog is hidden and released from the mask; with `hasMask`, it leaves the array; no duplicates, placement and the global invariant are preserved |
| Dialogs.Dialog.Destroy | index.js:136-140 | destroy releases the mask exactly as hide does, whether or not hide ran |
| Dialogs.Dialog.SetHasMask | index.js:57 | the flag changes and the array does not; the invariant survives unless a shown dialog flips the flag |
| Dialogs.Dialog.SetHideOnClickMask | index.js:60 | the flag changes and nothing else |
| Dialogs.Dialog.SetContent | index.js:158-175 | the content is reclassified; inline content replaces the body and recomputes the position; a URL leaves both alone |
| Dialogs.Dialog.SetCloseTpl | index.js:177-183 | the close label becomes the template, and the control is hidden for the empty string and shown otherwise |
| Dialogs.Dialog.OnCloseClick | index.js:119-124 | a click on the close control hides the dialog and releases the mask |
| Dialogs.Dialog.OnKeyUp | index.js:315-323 | Escape hides a visible dialog whose handler is bound; any other key, or a hidden dialog, changes nothing |
| Dialogs.Dialog.OnMaskClick | index.js:247-251 | a mask click hides the dialog exactly when its `click.<cid>` handler is bound |
| Scenarios.NewDialog | index.js:31-98 | a fresh hidden dialog as the tests build one: content `foo` rendered inline, close template `x` shown, Escape bound; the stack invariant survives when its cid is new |
| Scenarios.HideTop | tests/index.spec.js:302-324 | hiding the top of two dialogs keeps the mask shown, under the other dialog, at its z-index |
| Scenarios.HideLower | tests/index.spec.js:364-393 | hiding the lower of two dialogs splices it out and leaves the mask under the top dialog |
| Scenarios.HideBoth | tests/index.spec.js:302-331 | hiding both dialogs, in either order, empties the array and hides the mask |
| Scenarios.DoubleShow | tests/index.spec.js:412-421 | showing twice registers once, and one hide hides the mask |
| Scenarios.ToggleHasMaskBetweenShows | tests/index.spec.js:395-410 | `hasMask` switched between show/hide cycles decides whether the mask shows in each cycle |
| Scenarios.NoMask | tests/index.spec.js:272-279 | a dialog without a mask leaves the mask hidden and the array empty |
| Scenarios.DestroyTopOfTwo | tests/index.spec.js:442-456 | destroying the top of two dialogs keeps the mask for the other; hiding that one hides it |
| Scenarios.DestroyOnly | tests/index.spec.js:458-466 | destroying the only shown dialog hides the mask |
| Scenarios.ClickMask | tests/index.spec.js:281-300 | a mask click hides only the dialog that asked for it and unbinds its handler |
| Scenarios.EscapeKeyHides | tests/index.spec.js:195-206 | Escape hides a shown dialog and another key does not |
| Scenarios.MaskSwitchedOffWhileShown | index.js:259-261 | switching `hasMask` off while shown leaves the hidden dialog in the array and the mask up |
| Scenarios.ReshowBelowTop | index.js:229-244 | re-showing a mid-stack dialog moves the mask under it without reordering; hiding it then leaves the mask where it was |
| Scenarios.ClickFlagClearedWhileShown | index.js:297-299 | clearing `hideOnClickMask` while shown leaves the click handler bound after hide |
| Scenarios.CloseControlFollowsTemplate | tests/index.spec.js:237-248 | the close control is hidden for an empty template and shown for `X` |
| Scenarios.ContentPaths | tests/index.spec.js:79-86 | a bare file name renders as text; a relative URL makes `show` start a remote load |

## Left out

- DOM and jQuery work is abstracted away: `parseElement`, filling the content region, `insertBefore`, `css`, focus and tabindex. The mask's `before` field stands for `insertBefore`, and booleans stand for element visibility.
- Dialogs.VisibleTransition: only which branch is chosen is modelled. The fade animation's timing and the effect callback are foreign calls.
- The `align` getter is not modelled. It compares the rendered height against 0.84 times the window height, which is layout-dependent floating point.
- `_ajaxHtml` is modelled only as a counter of loads started. Completion is asynchronous network I/O, and the code has no guard against stale completions, so none is modelled.
- The trigger click delegation and the focus handlers are left out. Besides showing the dialog, they keep `activeTrigger`: setup sets it (index.js:153), a trigger click updates it (index.js:210), and the after-hide handler returns focus to it (index.js:310). It only steers focus and is not modelled.
- The overlay base class, the template mixin and the mask widget's internals are not part of this model. The mask is reduced to visibility, z-index, position and click bindings.
- Dialogs.Dialog.constructor: construction and the first render are collapsed into one step.
- Dialogs.Dialog.constructor: cids come from the base class's counter, which is not part of this model, so the stack invariant is promised only when the new cid is not already in use.
- `zIndex` is fixed at construction. The source reads the attribute at show and release time, but nothing here changes it afterwards.
- Dialogs.Mask.AfterShow: `click.<cid>` bindings form a set of cids. Binding the same namespace twice, as a second show does, is one binding here, whereas jQuery would attach two handlers.
- Dialogs.Dialog.OnMaskClick: a mask click is dispatched to one dialog at a time, not to every bound handler at once.
- Dialogs.Dialog.SetContent: the inline path's two branches are both modelled as displaying the value. Those branches are an element parsed from the value, or the value inserted as HTML.
- The `_setPosition` call count test depends on base-class code that is not part of this model. Only the recompute on inline content is counted.

## Behaviour of the code worth knowing

The model follows the code in each case:

- `hasMask` (index.js:57) has no change hook. Setting it never touches the array; it is read again only at the next show or release (`SetHasMask`).
- `_hideMask` returns at once when `hasMask` is false at release time (index.js:259-261). A dialog shown with a mask and then switched off stays in the array, and the mask stays up (`MaskSwitchedOffWhileShown`).
- The after-show handler pushes a dialog only if it is absent (index.js:232-244). A re-show from the middle of the stack moves the mask under the dialog but does not reorder the array (`ReshowBelowTop`).
- Every show with `hideOnClickMask` delegates the `click.<cid>` handler again (index.js:247-251), so a second show binds it a second time.
- The remote-load callback (index.js:327-330) repositions and signals completion with no check that the content is still the one requested.
