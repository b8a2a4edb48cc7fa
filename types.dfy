/** Value types of the dialog registry: dialog entries, their options, the
    payloads of the built-in dialog kinds and the externally visible effects. */
module DialogTypes {

  datatype Option<+T> = None | Some(value: T) {
    /** The value, or `default` when absent (JavaScript's `??`). */
    function GetOr(default: T): T {
      match this
      case Some(v) => v
      case None => default
    }
  }

  /** The four dialog kinds; TOAST entries are presented through their own channel. */
  datatype DialogType = Confirm | Alert | Toast | Custom

  /** Options a caller may pass to hideDialog, hideDialogAll and the wrappers. */
  datatype ControlOptions = ControlOptions(ignoreHistory: Option<bool>)

  /** Options stored with each entry. `onDismiss` records whether a dismiss
      callback was supplied; calling it appends a `Dismissed` effect. */
  datatype DialogOptions = DialogOptions(
    unique: Option<string>,
    dialogType: Option<DialogType>,
    ignoreHistory: Option<bool>,
    onDismiss: bool)

  datatype ConfirmProps = ConfirmProps(title: string, message: string, textYes: Option<string>, textNo: Option<string>)
  datatype AlertProps = AlertProps(title: string, message: string)
  datatype ToastProps = ToastProps(message: string, duration: Option<int>)
  /** The toast wrapper's argument: the toast's own props plus a dedup key. */
  datatype ShowToastProps = ShowToastProps(unique: Option<string>, props: ToastProps)

  /** What an entry renders; the registry never looks inside it. */
  datatype Element =
    | CustomElement(content: string)
    | ConfirmElement(confirm: ConfirmProps)
    | AlertElement(alert: AlertProps)
    | ToastElement(toast: ToastProps)

  /** A promise returned by showDialog, named by its index in the provider's promise table. */
  type PromiseId = nat

  /** One tracked dialog or toast request. `resolve` names the promise this showing settles. */
  datatype Dialog = Dialog(id: nat, element: Element, visible: bool, resolve: PromiseId, options: DialogOptions)

  /** The result a dialog is hidden with; `Undefined` is JavaScript's undefined. */
  datatype ResultValue = Undefined | Answer(yes: bool) | Data(content: string)

  /** The value a showDialog promise settles with. */
  datatype ShowDialogResult = ShowDialogResult(id: nat, result: ResultValue)

  /** A partial update of an entry: only the fields present are merged. */
  datatype DialogUpdate = DialogUpdate(visible: Option<bool>, options: Option<DialogOptions>)

  /** Observable effects on the host: history pushes and steps, dismiss
      callbacks, and calls of the scroll-blocking interception callback. */
  datatype Effect =
    | PushHistory(dialogId: nat)
    | HistoryGo(delta: int)
    | Dismissed(dialogId: nat)
    | ScrollIntercepted(dialogs: seq<Dialog>, toasts: seq<Dialog>)

  /** The history search parameter as read on a popstate notification. */
  datatype TagParam = Absent | NotANumber | Number(n: int)

  /** The error thrown by a wrapper whose renderer was never registered. */
  datatype DialogError = ComponentNotSet(kind: DialogType)

  /** A call that either returns a value or throws. */
  datatype Call<+T> = Returned(value: T) | Threw(error: DialogError)

  /** `options?.ignoreHistory ?? false` */
  predicate IgnoresHistory(o: DialogOptions) {
    o.ignoreHistory.GetOr(false)
  }

  predicate IsToast(d: Dialog) {
    d.options.dialogType == Some(Toast)
  }
}
