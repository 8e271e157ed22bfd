/**
 * The message that `flash` stores in the session: its type aliases are
 * normalised and a missing title gets a default. Storing it is not part of
 * this model.
 */
module Flash {
  import opened Wrappers

  /** The array `flash` passes to the session under 'flash_msg'. */
  datatype FlashMessage = FlashMessage(message: string, kind: string, isModal: bool, title: string, icon: string)

  /** 's' and 'good' mean 'success'; 'e' and 'err' mean 'error'; other types pass through. */
  function NormalizeType(kind: string): (r: string)
    ensures r == "success" <==> kind in {"s", "good", "success"}
    ensures r == "error" <==> kind in {"e", "err", "error"}
    ensures kind !in {"s", "good", "e", "err"} ==> r == kind
  {
    var afterSuccess := if kind == "s" || kind == "good" then "success" else kind;
    if afterSuccess == "e" || afterSuccess == "err" then "error" else afterSuccess
  }

  /** Normalising a normalised type changes nothing. */
  lemma NormalizeTypeIdempotent(kind: string)
    ensures NormalizeType(NormalizeType(kind)) == NormalizeType(kind)
  {
  }

  /**
   * The payload: the type normalised and used as the icon too; the title as
   * given unless it is null or empty, in which case 'Success!' for a success
   * and 'Oops...' for anything else.
   */
  function FlashPayload(message: string, kind: string, title: Option<string>, isModal: bool): (f: FlashMessage)
    ensures f.message == message && f.isModal == isModal
    ensures f.kind == NormalizeType(kind) && f.icon == f.kind
    ensures f.title != ""
    ensures title.Some? && title.value != "" ==> f.title == title.value
    ensures (title.None? || title.value == "") ==>
              (f.title == "Success!" <==> f.kind == "success") && (f.kind != "success" ==> f.title == "Oops...")
  {
    var t := NormalizeType(kind);
    var heading := if title.Some? && |title.value| > 0 then title.value
                   else if t == "success" then "Success!" else "Oops...";
    FlashMessage(message, t, isModal, heading, t)
  }
}
