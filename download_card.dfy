/**
  * The download notice card (src/components/Card/DownloadCard.tsx): whether
  * it is shown, how its close control and the `isActive` prop change that,
  * and what it renders.
  */
module DownloadCard {
  import opened Wrappers

  /** The download control: a button calling `onDownload`, or an anchor to the URL. */
  datatype DownloadAction =
    | DownloadButton
    | DownloadAnchor(to: Option<string>, target: string, download: bool)

  /** What the card renders: nothing, or the card with its two controls. */
  datatype View =
    | Nothing
    | Shown(classes: seq<string>, description: string, action: DownloadAction, downloadText: string, closeText: string)

  /** The render branches, for the given `show` state and props. */
  function Render(show: bool, hasOnDownload: bool, downloadURL: Option<string>,
                  description: string, downloadText: string, cancelText: string): (v: View)
    ensures !show <==> v == Nothing
    ensures v.Shown? ==> v.description == description && v.downloadText == downloadText && v.closeText == cancelText
    ensures v.Shown? ==> (v.action == DownloadButton <==> hasOnDownload)
    ensures v.Shown? && !hasOnDownload ==> v.action == DownloadAnchor(downloadURL, "_blank", true)
  {
    if !show then Nothing
    else
      var action := if hasOnDownload then DownloadButton else DownloadAnchor(downloadURL, "_blank", true);
      Shown(["text-xs", "mb-6", if show then "visible" else "invisible"], description, action, downloadText, cancelText)
  }

  /** A rendered card is always marked visible: the 'invisible' class can never be chosen. */
  lemma RenderedIsVisible(show: bool, hasOnDownload: bool, downloadURL: Option<string>,
                          description: string, downloadText: string, cancelText: string)
    ensures var v := Render(show, hasOnDownload, downloadURL, description, downloadText, cancelText);
      v.Shown? ==> "visible" in v.classes && "invisible" !in v.classes
  {
  }

  /**
    * One mounted card. `isActive` is the prop after its default (true) is
    * applied; `closeCalls` and `downloadCalls` count the `onClose` and
    * `onDownload` calls.
    */
  class Card {
    var show: bool
    var isActive: bool
    const hasOnClose: bool
    const hasOnDownload: bool
    var closeCalls: nat
    var downloadCalls: nat

    /** The card is shown only while active, and no callback is counted that was not supplied. */
    ghost predicate Valid()
      reads this
    {
      && (show ==> isActive)
      && (!hasOnClose ==> closeCalls == 0)
      && (!hasOnDownload ==> downloadCalls == 0)
    }

    /** `useState(false)`: hidden before the layout effect has run. */
    constructor (isActive: Option<bool>, hasOnClose: bool, hasOnDownload: bool)
      ensures Valid()
      ensures !show && this.isActive == isActive.GetOr(true)
      ensures this.hasOnClose == hasOnClose && this.hasOnDownload == hasOnDownload
      ensures closeCalls == 0 && downloadCalls == 0
    {
      show := false;
      this.isActive := isActive.GetOr(true);
      this.hasOnClose := hasOnClose;
      this.hasOnDownload := hasOnDownload;
      closeCalls, downloadCalls := 0, 0;
    }

    /** The layout effect on mount: `show` takes the value of `isActive`. */
    method Mount()
      requires Valid()
      modifies this
      ensures Valid()
      ensures show == isActive
      ensures isActive == old(isActive) && closeCalls == old(closeCalls) && downloadCalls == old(downloadCalls)
    {
      show := isActive;
    }

    /**
      * A new `isActive` prop. The effect re-runs only when the defaulted
      * value changes, so `undefined` and `true` are the same prop here.
      */
    method SetIsActive(newIsActive: Option<bool>)
      requires Valid()
      modifies this
      ensures Valid()
      ensures isActive == newIsActive.GetOr(true)
      ensures show == if isActive != old(isActive) then isActive else old(show)
      ensures closeCalls == old(closeCalls) && downloadCalls == old(downloadCalls)
    {
      var active := newIsActive.GetOr(true);
      if active != isActive {
        isActive := active;
        show := active;
      }
    }

    /**
      * `handleClose`: hide the card and call `onClose` once if it was
      * supplied. The close control exists only on a shown card.
      */
    method Close()
      requires Valid() && show
      modifies this
      ensures Valid()
      ensures !show
      ensures closeCalls == old(closeCalls) + (if hasOnClose then 1 else 0)
      ensures isActive == old(isActive) && downloadCalls == old(downloadCalls)
    {
      show := false;
      if hasOnClose {
        closeCalls := closeCalls + 1;
      }
    }

    /** A click on the download button: it exists only on a shown card with `onDownload`. */
    method ClickDownload()
      requires Valid() && show && hasOnDownload
      modifies this
      ensures Valid()
      ensures show && downloadCalls == old(downloadCalls) + 1
      ensures isActive == old(isActive) && closeCalls == old(closeCalls)
    {
      downloadCalls := downloadCalls + 1;
    }
  }

  /** Mounting an active card shows it; closing hides it until `isActive` goes false and back to true. */
  method CloseThenReactivate()
  {
    var card := new Card(None, true, false);
    card.Mount();
    assert card.show;
    card.Close();
    assert !card.show && card.closeCalls == 1;
    card.SetIsActive(Some(true));
    assert !card.show;
    card.SetIsActive(Some(false));
    card.SetIsActive(None);
    assert card.show && card.closeCalls == 1;
  }
}
