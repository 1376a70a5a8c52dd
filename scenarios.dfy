/** Show/hide/destroy sequences on fresh dialogs sharing one fresh mask,
    with what the mask looks like after each step. Each is derived from the
    contracts of `Dialog` and `Mask` alone. */
module Scenarios {
  import opened Stack
  import opened Content
  import opened Dialogs

  const DefaultZ: int := 999

  /** A dialog as the tests build one: content `foo`, close template `x`,
      Escape bound, and the given mask settings. */
  method NewDialog(m: Mask, cid: nat, hasMask: bool, hideOnClickMask: bool, zIndex: int) returns (d: Dialog)
    modifies m`all
    ensures fresh(d) && d.mask == m && d.cid == cid && d.zIndex == zIndex
    ensures d.hasMask == hasMask && d.hideOnClickMask == hideOnClickMask
    ensures d.content == Markup("foo") && !d.ajax && d.body == Markup("foo")
    ensures d.closeLabel == "x" && d.closeShown
    ensures !d.visible && !d.destroyed && d.escapeBound && d.Valid()
    ensures m.all == old(m.all) + {d}
    ensures old(m.Tracks()) && (forall e :: e in old(m.all) ==> e.cid != cid) ==> m.Tracks()
  {
    d := new Dialog(m, cid, Markup("foo"), hasMask, hideOnClickMask, true, "x", zIndex);
  }

  /** Two masked dialogs shown in turn; the top one is hidden first: the
      mask moves under the other one, takes its z-index and stays shown. */
  method HideTop() returns (size: int, underA: bool, z: int, shown: bool)
    ensures size == 1 && underA && z == DefaultZ && shown
  {
    var m := new Mask(0);
    var a := NewDialog(m, 1, true, false, DefaultZ);
    var b := NewDialog(m, 2, true, false, DefaultZ + 1);
    a.Show();
    b.Show();
    assert m.dialogs == [a] + [b];
    b.Hide();
    size, underA, z, shown := |m.dialogs|, m.before == a, m.zIndex, m.visible;
  }

  /** Two masked dialogs shown in turn; the lower one is hidden first: it is
      spliced out, and the mask stays under the top one at its z-index. */
  method HideLower() returns (size: int, underB: bool, z: int, shown: bool)
    ensures size == 1 && underB && z == DefaultZ + 1 && shown
  {
    var m := new Mask(0);
    var a := NewDialog(m, 1, true, false, DefaultZ);
    var b := NewDialog(m, 2, true, false, DefaultZ + 1);
    a.Show();
    b.Show();
    a.Hide();
    size, underB, z, shown := |m.dialogs|, m.before == b, m.zIndex, m.visible;
  }

  /** Hiding the last of the shown dialogs hides the mask, whichever order
      the two were hidden in. */
  method HideBoth(topFirst: bool) returns (size: int, shown: bool)
    ensures size == 0 && !shown
  {
    var m := new Mask(0);
    var a := NewDialog(m, 1, true, false, DefaultZ);
    var b := NewDialog(m, 2, true, false, DefaultZ);
    a.Show();
    b.Show();
    if topFirst {
      b.Hide();
      a.Hide();
    } else {
      a.Hide();
      b.Hide();
    }
    size, shown := |m.dialogs|, m.visible;
  }

  /** Showing the same dialog twice registers it once, so one hide hides the mask. */
  method DoubleShow() returns (size: nat, shownAfterHide: bool)
    ensures size == 1 && !shownAfterHide
  {
    var m := new Mask(0);
    var a := NewDialog(m, 1, true, false, DefaultZ);
    a.Show();
    a.Show();
    size := |m.dialogs|;
    a.Hide();
    shownAfterHide := m.visible;
  }

  /** `hasMask` switched between complete show/hide cycles: the mask shows
      only in the cycles where the dialog has one. */
  method ToggleHasMaskBetweenShows() returns (first: bool, second: bool, third: bool)
    ensures first && !second && third
  {
    var m := new Mask(0);
    var a := NewDialog(m, 1, true, false, DefaultZ);
    a.Show();
    first := m.visible;
    a.Hide();
    a.SetHasMask(false);
    a.Show();
    second := m.visible;
    a.Hide();
    a.SetHasMask(true);
    a.Show();
    third := m.visible;
  }

  /** A dialog without a mask leaves the mask hidden. */
  method NoMask() returns (shown: bool, size: nat)
    ensures !shown && size == 0
  {
    var m := new Mask(0);
    var a := NewDialog(m, 1, false, false, DefaultZ);
    a.Show();
    shown, size := m.visible, |m.dialogs|;
  }

  /** Destroying the top of two dialogs keeps the mask for the other;
      hiding that one then hides the mask. */
  method DestroyTopOfTwo() returns (shownAfterDestroy: bool, shownAfterHide: bool)
    ensures shownAfterDestroy && !shownAfterHide
  {
    var m := new Mask(0);
    var a := NewDialog(m, 1, true, false, DefaultZ);
    var b := NewDialog(m, 2, true, false, DefaultZ);
    a.Show();
    b.Show();
    b.Destroy();
    shownAfterDestroy := m.visible;
    a.Hide();
    shownAfterHide := m.visible;
  }

  /** Destroying the only shown dialog, without hiding it, hides the mask. */
  method DestroyOnly() returns (shownBefore: bool, shownAfter: bool)
    ensures shownBefore && !shownAfter
  {
    var m := new Mask(0);
    var a := NewDialog(m, 1, true, false, DefaultZ);
    a.Show();
    shownBefore := m.visible;
    a.Destroy();
    shownAfter := m.visible;
  }

  /** A click on the mask hides a dialog that asked for it, and only that one. */
  method ClickMask() returns (aVisible: bool, bVisible: bool, bound: set<nat>)
    ensures !aVisible && bVisible && bound == {}
  {
    var m := new Mask(0);
    var a := NewDialog(m, 1, true, true, DefaultZ);
    var b := NewDialog(m, 2, true, false, DefaultZ);
    b.Show();
    assert m.clickBindings == {};
    a.Show();
    assert m.clickBindings == {1};
    a.OnMaskClick();
    assert m.clickBindings == {};
    b.OnMaskClick();
    aVisible, bVisible, bound := a.visible, b.visible, m.clickBindings;
  }

  /** Escape hides a visible dialog; other keys do nothing. */
  method EscapeKeyHides() returns (afterOther: bool, afterEscape: bool)
    ensures afterOther && !afterEscape
  {
    var m := new Mask(0);
    var a := NewDialog(m, 1, true, false, DefaultZ);
    a.Show();
    a.OnKeyUp(13);
    afterOther := a.visible;
    a.OnKeyUp(EscapeKey);
    afterEscape := a.visible;
  }

  /** Switching `hasMask` off while the dialog is shown: the release returns
      early, so the hidden dialog stays on the stack and the mask stays up. */
  method MaskSwitchedOffWhileShown() returns (stillStacked: bool, maskShown: bool)
    ensures stillStacked && maskShown
  {
    var m := new Mask(0);
    var a := NewDialog(m, 1, true, false, DefaultZ);
    a.Show();
    a.SetHasMask(false);
    a.Hide();
    stillStacked, maskShown := a in m.dialogs && !a.visible, m.visible;
  }

  /** Re-showing a dialog that is below the top moves the mask under it but
      keeps the stack order, so the mask is no longer under the top; hiding
      it then leaves the mask where it was. */
  method ReshowBelowTop() returns (order: bool, underA: bool, stillUnderA: bool, maskShown: bool)
    ensures order && underA && stillUnderA && maskShown
  {
    var m := new Mask(0);
    var a := NewDialog(m, 1, true, false, DefaultZ);
    var b := NewDialog(m, 2, true, false, DefaultZ + 1);
    a.Show();
    b.Show();
    a.Show();
    order, underA := m.dialogs == [a, b], m.before == a && m.zIndex == DefaultZ;
    assert !m.Placed();
    a.Hide();
    assert m.dialogs == [b];
    stillUnderA, maskShown := m.before == a && m.zIndex == DefaultZ, m.visible;
  }

  /** The click binding is removed only if `hideOnClickMask` is still set when
      the dialog is hidden. */
  method ClickFlagClearedWhileShown() returns (bound: bool)
    ensures bound
  {
    var m := new Mask(0);
    var a := NewDialog(m, 7, true, true, DefaultZ);
    a.Show();
    a.SetHideOnClickMask(false);
    a.Hide();
    bound := 7 in m.clickBindings;
  }

  /** The close control follows `closeTpl`: hidden for the empty string,
      shown for anything else, before and after the dialog is shown. */
  method CloseControlFollowsTemplate() returns (initially: bool, afterX: bool, afterEmpty: bool)
    ensures !initially && afterX && !afterEmpty
  {
    var m := new Mask(0);
    var a := new Dialog(m, 1, Markup("should hide close link"), true, false, true, "", DefaultZ);
    a.Show();
    initially := a.closeShown;
    a.SetCloseTpl("X");
    afterX := a.closeShown;
    a.SetCloseTpl("");
    afterEmpty := a.closeShown;
  }

  /** A bare file name is rendered as text; a relative URL is left for the
      remote load, which `show` starts. */
  method ContentPaths() returns (inlineBody: Value, remote: bool, loads: int)
    ensures inlineBody == Markup("demo.html") && remote && loads == 1
  {
    var m := new Mask(0);
    var a := new Dialog(m, 1, Markup("demo.html"), true, false, true, "x", DefaultZ);
    BareFileNameIsInline();
    inlineBody := a.body;
    UrlsAreRemote();
    a.SetContent(Markup("./a.html"));
    remote := a.ajax;
    a.Show();
    loads := a.loadsStarted;
  }
}
