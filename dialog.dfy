/** The dialog widget and the page-wide mask it shares with every other
    masked dialog: the after-show handler registers a dialog in the mask's
    stack and places the mask under it; `_hideMask` releases it again after
    every hide and on destroy. */
module Dialogs {
  import opened Stack
  import opened Content

  /** Key code of the Escape key. */
  const EscapeKey: int := 27

  /** The `effect` attribute: a name (`none` by default, or `fade`) or a
      caller-supplied callback. */
  datatype Effect = Named(name: string) | Callback

  /** What `_onRenderVisible` does to the dialog's element. */
  datatype Transition = FadeIn(ms: nat) | RunCallback | ShowAtOnce | HideAtOnce

  /** Duration of the fade-in, fixed by the widget. */
  const FadeMs: nat := 300

  /** The visual transition chosen when `visible` changes: hiding is never
      animated; showing fades only for `fade`, runs a callback effect, and
      is immediate for any other name. */
  function VisibleTransition(visible: bool, effect: Effect): (t: Transition)
    ensures t == HideAtOnce <==> !visible
    ensures t.FadeIn? <==> visible && effect == Named("fade")
    ensures t.FadeIn? ==> t.ms == FadeMs
    ensures t == RunCallback <==> visible && effect.Callback?
  {
    if !visible then HideAtOnce
    else match effect
      case Named(n) => if n == "fade" then FadeIn(FadeMs) else ShowAtOnce
      case Callback => RunCallback
  }

  /** The one mask shared by all dialogs of a page. */
  class Mask {
    /** `mask._dialogs`: the masked dialogs in the order they were shown. */
    var dialogs: seq<Dialog>
    /** Whether the mask is shown. */
    var visible: bool
    /** The mask's `zIndex` attribute. */
    var zIndex: int
    /** The dialog whose element the mask was last inserted before. */
    var before: Dialog?
    /** The cids whose `click.<cid>` handler is delegated on the mask. */
    var clickBindings: set<nat>
    /** Every dialog set up against this mask. */
    ghost var all: set<Dialog>

    /** The stack holds exactly the dialogs that are shown with a mask, each
        once, and the mask is visible exactly when the stack is non-empty.
        No two dialogs share a cid, so each click namespace is one dialog's. */
    ghost predicate Tracks()
      reads this, all
    {
      (forall d, e :: d in all && e in all && d.cid == e.cid ==> d == e) &&
      Distinct(dialogs) &&
      (forall i :: 0 <= i < |dialogs| ==> dialogs[i] in all) &&
      (forall d :: d in all ==> (d in dialogs <==> d.Shown())) &&
      (visible <==> dialogs != [])
    }

    /** The mask sits directly under the top of the stack, at its z-index. */
    ghost predicate Placed()
      reads this
    {
      dialogs != [] ==> before == Last(dialogs) && zIndex == Last(dialogs).zIndex
    }

    /** The effect of the after-show handler run for `d`. */
    twostate predicate ShownBy(d: Dialog)
      reads this, d
    {
      all == old(all) &&
      if d.hasMask then
        visible && zIndex == d.zIndex && before == d &&
        dialogs == Registered(old(dialogs), d) &&
        clickBindings == (if d.hideOnClickMask then old(clickBindings) + {d.cid} else old(clickBindings))
      else
        dialogs == old(dialogs) && visible == old(visible) && zIndex == old(zIndex) &&
        before == old(before) && clickBindings == old(clickBindings)
    }

    /** The effect of `_hideMask` run for `d`. */
    twostate predicate ReleasedBy(d: Dialog)
      reads this, d
    {
      all == old(all) &&
      if d.hasMask then
        dialogs == Released(old(dialogs), d) &&
        visible == (old(visible) && dialogs != []) &&
        (if old(dialogs) != [] && Last(old(dialogs)) == d && dialogs != [] then
           before == Last(dialogs) && zIndex == Last(dialogs).zIndex
         else
           before == old(before) && zIndex == old(zIndex)) &&
        clickBindings == (if d.hideOnClickMask then old(clickBindings) - {d.cid} else old(clickBindings))
      else
        dialogs == old(dialogs) && visible == old(visible) && zIndex == old(zIndex) &&
        before == old(before) && clickBindings == old(clickBindings)
    }

    /** Releasing a dialog that is no longer shown, while every other
        dialog stays as it was, keeps the stack tracking the shown dialogs. */
    twostate lemma ReleaseKeepsTracks(d: Dialog)
      requires old(Tracks()) && ReleasedBy(d)
      requires d.hasMask == old(d.hasMask) && !d.Shown()
      requires forall e :: e in old(all) && e != d ==> e.Shown() == old(e.Shown())
      ensures Tracks()
    {
      var was := old(dialogs);
      assert Distinct(was);
      if d.hasMask {
        ReleasedMembers(was, d);
        assert forall e :: e in dialogs <==> e in was && e != d;
        forall e | e in all
          ensures e in dialogs <==> e.Shown()
        {
          if e != d {
            assert old(e in dialogs <==> e.Shown());
          }
        }
        assert dialogs != [] ==> was != [];
        ReleasedShrinks(was, d);
        forall i | 0 <= i < |dialogs|
          ensures dialogs[i] in all
        {
          assert dialogs[i] in was;
          var j :| 0 <= j < |was| && was[j] == dialogs[i];
        }
      } else {
        assert dialogs == was;
        forall e | e in all
          ensures e in dialogs <==> e.Shown()
        {
          assert old(e in dialogs <==> e.Shown());
        }
        assert forall i :: 0 <= i < |dialogs| ==> dialogs[i] in all;
      }
    }

    /** A fresh, hidden mask with an empty stack. */
    constructor (zIndex: int)
      ensures dialogs == [] && !visible && this.zIndex == zIndex && before == null
      ensures clickBindings == {} && all == {}
      ensures Tracks() && Placed()
    {
      dialogs := [];
      visible := false;
      this.zIndex := zIndex;
      before := null;
      clickBindings := {};
      all := {};
    }

    /** The `existed` scan of the after-show handler: is `d` on the stack? */
    method Holds(d: Dialog) returns (existed: bool)
      ensures existed <==> d in dialogs
    {
      existed := false;
      var i := 0;
      while i < |dialogs|
        invariant 0 <= i <= |dialogs|
        invariant existed <==> d in dialogs[..i]
      {
        if dialogs[i] == d {
          existed := true;
        }
        i := i + 1;
      }
      assert dialogs[..i] == dialogs;
    }

    /** The after-show handler: for a masked dialog, show the mask at the
        dialog's z-index, insert it before the dialog, push the dialog unless
        it is already on the stack, and bind the mask click if asked to. */
    method AfterShow(d: Dialog)
      modifies this
      ensures ShownBy(d)
      ensures Distinct(old(dialogs)) ==> Distinct(dialogs)
    {
      if !d.hasMask {
        return;
      }
      zIndex := d.zIndex;
      visible := true;
      before := d;
      var existed := Holds(d);
      if !existed {
        dialogs := dialogs + [d];
      }
      if d.hideOnClickMask {
        clickBindings := clickBindings + {d.cid};
      }
    }

    /** The stack update of `_hideMask`: pop `d` if it is the top entry,
        otherwise splice out its first occurrence below the top. */
    method Unstack(d: Dialog) returns (currentIsLast: bool)
      modifies this`dialogs
      ensures currentIsLast <==> old(dialogs) != [] && Last(old(dialogs)) == d
      ensures dialogs == Released(old(dialogs), d)
    {
      currentIsLast := false;
      if |dialogs| > 0 && dialogs[|dialogs| - 1] == d {
        currentIsLast := true;
        dialogs := dialogs[..|dialogs| - 1];
      } else {
        var i := 0;
        while i < |dialogs| - 1
          invariant 0 <= i <= |dialogs|
          invariant dialogs == old(dialogs)
          invariant d !in dialogs[..i]
        {
          if dialogs[i] == d {
            FirstIndexUnique(dialogs, d, i);
            RemoveFirstSplices(dialogs, d);
            dialogs := dialogs[..i] + dialogs[i + 1..];
            break;
          }
          i := i + 1;
        }
        if dialogs == old(dialogs) && |dialogs| > 0 {
          assert dialogs == dialogs[..|dialogs| - 1] + [Last(dialogs)];
        }
      }
    }

    /** `_hideMask`: for a dialog that has a mask now, pop it if it is the
        top (moving the mask under the new top), otherwise splice out its
        first occurrence below the top; hide the mask once the stack is
        empty; unbind the mask click if the dialog asks for it now. */
    method HideMask(d: Dialog)
      modifies this
      ensures ReleasedBy(d)
      ensures Distinct(old(dialogs)) ==> Distinct(dialogs)
      ensures old(Placed()) ==> Placed()
    {
      if !d.hasMask {
        return;
      }
      var currentIsLast := Unstack(d);
      if |dialogs| > 0 {
        if currentIsLast {
          var last := dialogs[|dialogs| - 1];
          zIndex := last.zIndex;
          before := last;
        }
      } else {
        visible := false;
      }
      if d.hideOnClickMask {
        clickBindings := clickBindings - {d.cid};
      }
      if Distinct(old(dialogs)) {
        ReleasedMembers(old(dialogs), d);
      }
      if old(dialogs) != [] && Last(old(dialogs)) != d {
        ReleasedKeepsTop(old(dialogs), d);
      }
    }
  }

  /** A dialog. Its element, template and layout are not modelled; what is
      kept is the state the mask coordinator, the content resolver, the close
      control and the Escape guard act on. */
  class Dialog {
    /** The shared mask this dialog was set up against. */
    const mask: Mask
    /** The widget's unique id, namespacing its mask-click handler. */
    const cid: nat
    /** The `zIndex` attribute (999 by default). */
    const zIndex: int
    /** Whether the Escape handler was delegated at setup. */
    const escapeBound: bool

    var hasMask: bool
    var hideOnClickMask: bool
    var visible: bool
    /** The `content` attribute and the `_ajax` flag its setter derives. */
    var content: Value
    var ajax: bool
    /** What the content region displays from the inline path. */
    var body: Value
    /** How often the position was recomputed after inline content changed. */
    var repositions: nat
    /** How many remote loads `show` has started. */
    var loadsStarted: nat
    /** The close control's markup and whether it is displayed. */
    var closeLabel: string
    var closeShown: bool
    /** Set once `destroy` has run; the instance is inert afterwards. */
    ghost var destroyed: bool

    /** The dialog is one of its mask's dialogs. */
    ghost predicate Valid()
      reads this, mask
    {
      this in mask.all
    }

    /** Shown with a mask: what the mask's stack should hold. */
    ghost predicate Shown()
      reads this
    {
      visible && hasMask && !destroyed
    }

    /** Construction followed by render: the content setter classifies the
        content and the inline path fills the content region; the close
        control is displayed only for a non-empty `closeTpl`; the Escape
        handler is bound if `hideOnKeyEscape` is set; the dialog joins the
        mask's dialogs hidden. */
    constructor (mask: Mask, cid: nat, content: Value, hasMask: bool, hideOnClickMask: bool,
                 hideOnKeyEscape: bool, closeTpl: string, zIndex: int)
      modifies mask`all
      ensures this.mask == mask && this.cid == cid && this.zIndex == zIndex
      ensures this.hasMask == hasMask && this.hideOnClickMask == hideOnClickMask
      ensures escapeBound == hideOnKeyEscape
      ensures !visible && !destroyed
      ensures this.content == content && ajax == IsRemote(content)
      ensures body == (if ajax then Absent else content)
      ensures loadsStarted == 0
      ensures repositions == (if ajax || content == Absent then 0 else 1)
      ensures closeLabel == closeTpl && (closeShown <==> closeTpl != "")
      ensures mask.all == old(mask.all) + {this}
      ensures Valid()
      ensures old(mask.Tracks()) && (forall e :: e in old(mask.all) ==> e.cid != cid) ==> mask.Tracks()
    {
      this.mask := mask;
      this.cid := cid;
      this.zIndex := zIndex;
      escapeBound := hideOnKeyEscape;
      this.hasMask := hasMask;
      this.hideOnClickMask := hideOnClickMask;
      visible := false;
      this.content := content;
      ajax := IsRemote(content);
      body := if IsRemote(content) then Absent else content;
      repositions := if IsRemote(content) || content == Absent then 0 else 1;
      loadsStarted := 0;
      closeLabel := closeTpl;
      closeShown := closeTpl != "";
      destroyed := false;
      new;
      mask.all := mask.all + {this};
    }

    /** `show`: start the remote load when the content is a URL, become
        visible, then run the mask's after-show handler. */
    method Show()
      requires Valid() && !destroyed
      modifies this`visible, this`loadsStarted, mask
      ensures Valid() && visible
      ensures loadsStarted == old(loadsStarted) + (if ajax then 1 else 0)
      ensures mask.ShownBy(this)
      ensures hasMask ==> mask.visible && mask.zIndex == zIndex && mask.before == this && this in mask.dialogs
      ensures hasMask && (this !in old(mask.dialogs) || Last(old(mask.dialogs)) == this) ==> mask.Placed()
      ensures Distinct(old(mask.dialogs)) ==> Distinct(mask.dialogs)
      ensures old(mask.Tracks()) ==> mask.Tracks()
    {
      if ajax {
        loadsStarted := loadsStarted + 1;
      }
      visible := true;
      mask.AfterShow(this);
    }

    /** `hide`: become invisible, then release the mask. */
    method Hide()
      requires Valid() && !destroyed
      modifies this`visible, mask
      ensures Valid() && !visible
      ensures mask.ReleasedBy(this)
      ensures hasMask && Distinct(old(mask.dialogs)) ==> this !in mask.dialogs
      ensures Distinct(old(mask.dialogs)) ==> Distinct(mask.dialogs)
      ensures old(mask.Placed()) ==> mask.Placed()
      ensures old(mask.Tracks()) ==> mask.Tracks()
    {
      visible := false;
      mask.HideMask(this);
      if Distinct(old(mask.dialogs)) {
        ReleasedMembers(old(mask.dialogs), this);
      }
      if old(mask.Tracks()) {
        mask.ReleaseKeepsTracks(this);
      }
    }

    /** `destroy`: remove the element and release the mask, whether or not
        `hide` ran first. */
    method Destroy()
      requires Valid() && !destroyed
      modifies this`destroyed, mask
      ensures Valid() && destroyed
      ensures mask.ReleasedBy(this)
      ensures hasMask && Distinct(old(mask.dialogs)) ==> this !in mask.dialogs
      ensures Distinct(old(mask.dialogs)) ==> Distinct(mask.dialogs)
      ensures old(mask.Placed()) ==> mask.Placed()
      ensures old(mask.Tracks()) ==> mask.Tracks()
    {
      mask.HideMask(this);
      destroyed := true;
      if Distinct(old(mask.dialogs)) {
        ReleasedMembers(old(mask.dialogs), this);
      }
      if old(mask.Tracks()) {
        mask.ReleaseKeepsTracks(this);
      }
    }

    /** `set('hasMask', b)`: there is no change hook, so the stack is not
        touched; the stack invariant survives unless a shown dialog flips. */
    method SetHasMask(b: bool)
      modifies this`hasMask
      ensures hasMask == b
      ensures old(mask.Tracks()) && (!visible || destroyed || b == old(hasMask)) ==> mask.Tracks()
    {
      hasMask := b;
    }

    /** `set('hideOnClickMask', b)`: read again only at the next show or release. */
    method SetHideOnClickMask(b: bool)
      modifies this`hideOnClickMask
      ensures hideOnClickMask == b
    {
      hideOnClickMask := b;
    }

    /** `set('content', c)`: the setter reclassifies; inline content replaces
        the content region and the position is recomputed; a URL waits for
        the next `show`. */
    method SetContent(c: Value)
      requires !destroyed
      modifies this`content, this`ajax, this`body, this`repositions
      ensures content == c && ajax == IsRemote(c)
      ensures ajax ==> body == old(body) && repositions == old(repositions)
      ensures !ajax ==> body == c && repositions == old(repositions) + 1
    {
      content := c;
      ajax := IsRemote(c);
      if !ajax {
        body := c;
        repositions := repositions + 1;
      }
    }

    /** `set('closeTpl', tpl)`: the label becomes `tpl`, and the control is
        hidden for the empty string and shown otherwise. */
    method SetCloseTpl(tpl: string)
      requires !destroyed
      modifies this`closeLabel, this`closeShown
      ensures closeLabel == tpl
      ensures closeShown <==> tpl != ""
    {
      closeLabel := tpl;
      if tpl == "" {
        closeShown := false;
      } else {
        closeShown := true;
      }
    }

    /** A click on the close control hides the dialog. */
    method OnCloseClick()
      requires Valid() && !destroyed
      modifies this`visible, mask
      ensures Valid() && !visible
      ensures mask.ReleasedBy(this)
      ensures old(mask.Tracks()) ==> mask.Tracks()
    {
      Hide();
    }

    /** The document key-up handler: Escape hides the dialog, and only when
        it is visible and the handler was bound at setup. */
    method OnKeyUp(keyCode: int)
      requires Valid() && !destroyed
      modifies this`visible, mask
      ensures Valid()
      ensures escapeBound && keyCode == EscapeKey && old(visible) ==> !visible && mask.ReleasedBy(this)
      ensures !(escapeBound && keyCode == EscapeKey && old(visible)) ==> visible == old(visible) && unchanged(mask)
      ensures old(mask.Tracks()) ==> mask.Tracks()
    {
      if escapeBound && keyCode == EscapeKey && visible {
        Hide();
      }
    }

    /** A click on the mask runs this dialog's handler if it is bound. */
    method OnMaskClick()
      requires Valid() && !destroyed
      modifies this`visible, mask
      ensures Valid()
      ensures cid in old(mask.clickBindings) ==> !visible && mask.ReleasedBy(this)
      ensures cid !in old(mask.clickBindings) ==> visible == old(visible) && unchanged(mask)
      ensures old(mask.Tracks()) ==> mask.Tracks()
    {
      if cid in mask.clickBindings {
        Hide();
      }
    }
  }
}
